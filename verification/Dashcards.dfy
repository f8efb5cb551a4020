/**
 What a run does to the dashcards that were on its dashboards: which of them are still there
 afterwards, and that the server stays a sound one.
 */
module Dashcards {
  import opened Base
  import opened MetabaseServer
  import opened MetabaseBoards
  import opened BoardLaws
  import opened BoardConvergence
  import opened SharedCards

  /** The dashcards of a dashboard: each its own id, handed out before, of a card that exists. */
  ghost predicate SoundDashcards(dashcards: seq<Dashcard>, s: Server) {
    && (forall k :: 0 <= k < |dashcards| ==> dashcards[k].id < s.nextDashcard && dashcards[k].card in s.cards.items)
    && (forall j, k :: 0 <= j < k < |dashcards| ==> dashcards[j].id != dashcards[k].id)
  }

  ghost predicate Sound(s: Server) {
    && Valid(s)
    && forall i :: i in s.dashboards.items ==> SoundDashcards(s.dashboards.items[i].body.dashcards, s)
  }

  lemma PriorIsSound(s: Server, name: string)
    requires Sound(s)
    ensures SoundDashcards(PriorDashcards(s, name), s)
  {
    hide Shelf.Index;
  }

  /** The dashcard that `by_card_id` remembers of a card: the last one that shows it. */
  lemma {:induction false} ByCardIsLast(dashcards: seq<Dashcard>, card: Id)
    ensures card in ByCard(dashcards) <==> exists k :: 0 <= k < |dashcards| && dashcards[k].card == card
    ensures card in ByCard(dashcards) ==>
              exists k :: 0 <= k < |dashcards| && dashcards[k].card == card &&
                dashcards[k].id == ByCard(dashcards)[card] &&
                          forall j :: k < j < |dashcards| ==> dashcards[j].card != card
  {
    if dashcards != [] {
      var n := |dashcards| - 1;
      var init := dashcards[..n];
      ByCardIsLast(init, card);
      if dashcards[n].card != card && card in ByCard(init) {
        var k :| 0 <= k < |init| && init[k].card == card && init[k].id == ByCard(init)[card] &&
                 forall j :: k < j < |init| ==> init[j].card != card;
        assert dashcards[k] == init[k];
        assert forall j :: k < j < n ==> dashcards[j] == init[j];
      }
    }
  }

  /** Some definition of the board finds the dashcard's card, and it is the last one of that card. */
  ghost predicate IsKept(s: Server, board: Board, d: Dashcard) {
    var before := PriorDashcards(s, board.name);
    && d.card in ByCard(before) && ByCard(before)[d.card] == d.id
    && exists k :: 0 <= k < |board.cards| && Lookup(s.cards.Index(), board.cards[k].name) == Some(d.card)
  }

  ghost predicate IsStillThere(t: Server, board: Board, d: Dashcard) {
    exists k :: 0 <= k < |PriorDashcards(t, board.name)| && PriorDashcards(t, board.name)[k].id == d.id
  }

  lemma KeptIsStillThere(s: Server, t: Server, b: Board, d: Dashcard)
    requires Traced(s, t, b, s.cards.Index()) && IsKept(s, b, d)
    ensures IsStillThere(t, b, d)
  {
    hide Shelf.Index, ByCard, PriorDashcards;
    var after := PriorDashcards(t, b.name);
    var k :| 0 <= k < |b.cards| && Lookup(s.cards.Index(), b.cards[k].name) == Some(d.card);
    assert FoundOrNew(s.cards.Index(), s.cards.next, b.cards[k].name, after[k].card);
    assert after[k].card == d.card;
    assert after[k].id == d.id;
  }

  lemma StillThereIsKept(s: Server, t: Server, b: Board, d: Dashcard)
    requires Traced(s, t, b, s.cards.Index()) && SoundDashcards(PriorDashcards(s, b.name), s) && s.cards.Valid()
    requires d in PriorDashcards(s, b.name) && IsStillThere(t, b, d)
    ensures IsKept(s, b, d)
  {
    hide Shelf.Index, ByCard, PriorDashcards;
    var before, after := PriorDashcards(s, b.name), PriorDashcards(t, b.name);
    var k :| 0 <= k < |after| && after[k].id == d.id;
    assert FoundOrNew(s.cards.Index(), s.cards.next, b.cards[k].name, after[k].card);
    ByCardIsLast(before, after[k].card);
    assert after[k].card in ByCard(before);
    var j :| 0 <= j < |before| && before[j].card == after[k].card && before[j].id == ByCard(before)[after[k].card];
    var i :| 0 <= i < |before| && before[i] == d;
  }

  /**
   After a run, a dashcard that was on a board's dashboard is still there under its id if and
   only if some definition of the board finds its card and no later dashcard showed that card.
   */
  lemma DashcardStaysIff(s: Server, boards: seq<Board>, details: Connection, b: Board, d: Dashcard)
    requires Sound(s) && WellNamed(boards) && b in boards && d in PriorDashcards(s, b.name)
    ensures IsStillThere(Converge(s, boards, details), b, d) <==> IsKept(s, b, d)
  {
    hide Shelf.Index, Converge, Traced, IsKept, IsStillThere, SoundDashcards, ShownApart, Frame, PriorDashcards;
    var t := Converge(s, boards, details);
    StaleConverge(s, boards, details);
    PriorIsSound(s, b.name);
    if IsKept(s, b, d) { KeptIsStillThere(s, t, b, d); }
    if IsStillThere(t, b, d) { StillThereIsKept(s, t, b, d); }
  }

  /** So a dashcard placed by hand, of a card the board does not have, is gone. */
  lemma HandPlacedIsDropped(s: Server, boards: seq<Board>, details: Connection, b: Board, d: Dashcard)
    requires Sound(s) && WellNamed(boards) && b in boards && d in PriorDashcards(s, b.name)
    requires d.card in s.cards.items && s.cards.items[d.card].name !in SpecNames(b.cards)
    ensures !IsStillThere(Converge(s, boards, details), b, d)
  {
    hide Shelf.Index, Converge, Sound, WellNamed, PriorDashcards, IsStillThere;
    DashcardStaysIff(s, boards, details, b, d);
    forall k | 0 <= k < |b.cards| ensures Lookup(s.cards.Index(), b.cards[k].name) != Some(d.card) {
      NameIn(b.cards, k);
      if b.cards[k].name in s.cards.Index() { IndexBears(s.cards, b.cards[k].name); }
    }
  }

  /** And so is every placement but the last of a card that was on the dashboard twice. */
  lemma SecondPlacementIsDropped(s: Server, boards: seq<Board>, details: Connection, b: Board, i: nat, j: nat)
    requires Sound(s) && WellNamed(boards) && b in boards
    requires var before := PriorDashcards(s, b.name); i < j < |before| && before[i].card == before[j].card
    ensures !IsStillThere(Converge(s, boards, details), b, PriorDashcards(s, b.name)[i])
  {
    hide Shelf.Index, Converge, WellNamed, PriorDashcards, IsStillThere, ByCard;
    var before := PriorDashcards(s, b.name);
    DashcardStaysIff(s, boards, details, b, before[i]);
    PriorIsSound(s, b.name);
    ByCardIsLast(before, before[i].card);
    var k :| 0 <= k < |before| && before[k].card == before[i].card && before[k].id == ByCard(before)[before[i].card] &&
             forall l :: k < l < |before| ==> before[l].card != before[i].card;
    assert k >= j;
  }

  /**
   Keeping its id does not keep a dashcard's settings: they are what they were exactly when
   there were none.
   */
  lemma SettingsStayIff(s: Server, boards: seq<Board>, details: Connection, b: Board, d: Dashcard, x: Dashcard)
    requires Valid(s) && WellNamed(boards) && b in boards
    requires d in PriorDashcards(s, b.name) && x in PriorDashcards(Converge(s, boards, details), b.name) && x.id == d.id
    ensures x.settings == d.settings <==> d.settings == ""
  {
    hide Shelf.Index, Converge, IdsKept, FoundOrNew, ShownApart, Frame, OnlyMarts, Grown, PriorDashcards;
    StaleConverge(s, boards, details);
    assert Traced(s, Converge(s, boards, details), b, s.cards.Index());
  }

  // ----------------------------------------------------------- a sound server ---

  ghost predicate IdsBelow(wanted: seq<Wanted>, next: Id) {
    && (forall k :: 0 <= k < |wanted| ==> wanted[k].id < next)
    && (forall j, k :: 0 <= j < k < |wanted| && wanted[j].id >= 0 ==> wanted[j].id != wanted[k].id)
  }

  ghost predicate Fresh(r: Settled) {
    && (forall k :: 0 <= k < |r.dashcards| ==> r.dashcards[k].id < r.next)
    && (forall j, k :: 0 <= j < k < |r.dashcards| ==> r.dashcards[j].id != r.dashcards[k].id)
  }

  lemma OneMoreDashcard(r: Settled, d: Dashcard, next: Id)
    requires Fresh(r) && r.next <= next && d.id < next
    requires forall k :: 0 <= k < |r.dashcards| ==> r.dashcards[k].id != d.id
    ensures Fresh(Settled(r.dashcards + [d], next))
  {
  }

  lemma {:induction false} SettleIsSound(wanted: seq<Wanted>, next: Id)
    requires IdsBelow(wanted, next)
    ensures Fresh(Settle(wanted, next))
  {
    if wanted != [] {
      var n := |wanted| - 1;
      var init, last := wanted[..n], wanted[n];
      var r := Settle(init, next);
      assert forall k :: 0 <= k < n ==> init[k] == wanted[k];
      SettleIsSound(init, next);
      SettleLaw(init, next);
      if last.id < 0 {
        OneMoreDashcard(r, Dashcard(r.next, last.card, last.place, ""), r.next + 1);
      } else {
        OneMoreDashcard(r, Dashcard(last.id, last.card, last.place, ""), r.next);
      }
    }
  }

  lemma KeptIdsDiffer(before: seq<Dashcard>, s: Server, c: Id, d: Id)
    requires SoundDashcards(before, s) && c != d && c in ByCard(before) && d in ByCard(before)
    ensures ByCard(before)[c] != ByCard(before)[d]
  {
    hide ByCard;
    ByCardIsLast(before, c);
    ByCardIsLast(before, d);
    var i :| 0 <= i < |before| && before[i].card == c && before[i].id == ByCard(before)[c];
    var j :| 0 <= j < |before| && before[j].card == d && before[j].id == ByCard(before)[d];
    assert i < j || j < i;
  }

  lemma KeptIdIsOld(before: seq<Dashcard>, s: Server, c: Id)
    requires SoundDashcards(before, s) && c in ByCard(before)
    ensures ByCard(before)[c] < s.nextDashcard
  {
    hide ByCard;
    ByCardIsLast(before, c);
  }

  lemma SettledIsSound(s: Server, before: seq<Dashcard>, board: Board, ids: seq<Id>)
    requires SoundDashcards(before, s) && |ids| == |board.cards|
    requires forall j, k :: 0 <= j < k < |ids| ==> ids[j] != ids[k]
    requires forall k :: 0 <= k < |ids| ==> ids[k] in s.cards.items
    ensures var r := Settle(WantedDashcards(ByCard(before), board.cards, ids), s.nextDashcard);
            forall t: Server :: t.cards == s.cards && t.nextDashcard == r.next ==> SoundDashcards(r.dashcards, t)
  {
    hide ByCard, Settle, SoundDashcards, Fresh;
    var prior := ByCard(before);
    var wanted := WantedDashcards(prior, board.cards, ids);
    forall k | 0 <= k < |wanted| ensures wanted[k].id < s.nextDashcard {
      if ids[k] in prior { KeptIdIsOld(before, s, ids[k]); }
    }
    forall j, k | 0 <= j < k < |wanted| && wanted[j].id >= 0 ensures wanted[j].id != wanted[k].id {
      if ids[k] in prior { KeptIdsDiffer(before, s, ids[j], ids[k]); }
    }
    SettleIsSound(wanted, s.nextDashcard);
    SettleLaw(wanted, s.nextDashcard);
    var r := Settle(wanted, s.nextDashcard);
    forall k | 0 <= k < |r.dashcards| ensures r.dashcards[k].card in s.cards.items {
      assert r.dashcards[k].card == wanted[k].card == ids[k];
    }
    AllSound(s, r);
  }

  lemma AllSound(s: Server, r: Settled)
    requires Fresh(r) && forall k :: 0 <= k < |r.dashcards| ==> r.dashcards[k].card in s.cards.items
    ensures forall t: Server :: t.cards == s.cards && t.nextDashcard == r.next ==> SoundDashcards(r.dashcards, t)
  {
  }

  lemma StaysSoundDashcards(dashcards: seq<Dashcard>, s: Server, t: Server)
    requires SoundDashcards(dashcards, s) && s.nextDashcard <= t.nextDashcard
    requires forall i :: i in s.cards.items ==> i in t.cards.items
    ensures SoundDashcards(dashcards, t)
  {
  }

  lemma GrownIsSound(s: Server, cards: Shelf<CardBody>)
    requires Sound(s) && cards.Valid() && Grown(s.cards, cards)
    ensures Sound(s.(cards := cards))
  {
    hide SoundDashcards;
    var t := s.(cards := cards);
    forall i | i in t.dashboards.items ensures SoundDashcards(t.dashboards.items[i].body.dashcards, t) {
      StaysSoundDashcards(t.dashboards.items[i].body.dashcards, s, t);
    }
  }

  lemma DashboardIsSound(s: Server, board: Board, ids: seq<Id>)
    requires Sound(s) && |ids| == |board.cards|
    requires forall j, k :: 0 <= j < k < |ids| ==> ids[j] != ids[k]
    requires forall k :: 0 <= k < |ids| ==> ids[k] in s.cards.items
    ensures Sound(UpsertDashboard(s, board, ids))
  {
    hide Shelf.Index, Frame, Settle, ByCard, SoundDashcards, PriorDashcards;
    var before := PriorDashcards(s, board.name);
    var r := Settle(WantedDashcards(ByCard(before), board.cards, ids), s.nextDashcard);
    var t := UpsertDashboard(s, board, ids);
    PriorIsSound(s, board.name);
    SettledIsSound(s, before, board, ids);
    UpsertLaw(s.dashboards, board.name, DashboardBody(board.description, r.dashcards));
    forall i | i in t.dashboards.items ensures SoundDashcards(t.dashboards.items[i].body.dashcards, t) {
      if i in s.dashboards.items && t.dashboards.items[i] == s.dashboards.items[i] {
        StaysSoundDashcards(t.dashboards.items[i].body.dashcards, s, t);
      }
    }
  }

  lemma {:induction false} BoardsAreSound(s: Server, boards: seq<Board>, database: Id, existing: map<string, Id>)
    requires Sound(s) && Holds(s.cards, existing) && Snapshot(existing, s.cards) && WellNamed(boards)
    ensures var t := ConvergeBoards(s, boards, database, existing); Sound(t) && Holds(t.cards, existing)
  {
    hide Sound, Holds, Bearing, Grown, UpsertCards, UpsertDashboard;
    if boards != [] {
      var init, board := boards[..|boards| - 1], boards[|boards| - 1];
      var mid := ConvergeBoards(s, init, database, existing);
      BoardsAreSound(s, init, database, existing);
      var placed := UpsertCards(mid.cards, board.cards, database, existing);
      StaleCards(mid.cards, board.cards, database, existing);
      HoldsIsValid(placed.cards, existing);
      GrownIsSound(mid, placed.cards);
      forall j, k | 0 <= j < k < |placed.ids| ensures placed.ids[j] != placed.ids[k] {
        NamesDiffer(board.cards, j, k);
        OneName(placed.cards, placed.ids[j], board.cards[j].name);
        OneName(placed.cards, placed.ids[k], board.cards[k].name);
      }
      forall k | 0 <= k < |placed.ids| ensures placed.ids[k] in placed.cards.items {
        OneName(placed.cards, placed.ids[k], board.cards[k].name);
      }
      DashboardIsSound(mid.(cards := placed.cards), board, placed.ids);
      KeepsCards(mid.(cards := placed.cards), board, placed.ids);
    }
  }

  lemma OneName(cards: Shelf<CardBody>, id: Id, name: string)
    requires Bearing(cards, id, name)
    ensures id in cards.items && cards.items[id].name == name
  {
  }

  /** A run leaves a sound server sound, whatever names its boards share. */
  lemma ConvergeStaysSound(s: Server, boards: seq<Board>, details: Connection)
    requires Sound(s) && WellNamed(boards)
    ensures Sound(Converge(s, boards, details))
  {
    hide Shelf.Index, Holds, ConvergeBoards, EnsureMartsDatabase, OnlyMarts, DatabaseIsLive;
    var e := EnsureMartsDatabase(s, details);
    EnsureLaw(s, details);
    UntouchedByMarts(s, e.server, e.id);
    SameShelvesAreSound(s, e.server);
    CardIndexIsSnapshot(e.server.cards);
    IndexHolds(e.server.cards);
    BoardsAreSound(e.server, boards, e.id, e.server.cards.Index());
  }

  lemma SameShelvesAreSound(s: Server, e: Server)
    requires Sound(s) && Valid(e) && e.cards == s.cards && e.dashboards == s.dashboards &&
             e.nextDashcard == s.nextDashcard
    ensures Sound(e)
  {
    hide SoundDashcards;
    forall i | i in e.dashboards.items ensures SoundDashcards(e.dashboards.items[i].body.dashcards, e) {
      StaysSoundDashcards(e.dashboards.items[i].body.dashcards, s, e);
    }
  }
}
