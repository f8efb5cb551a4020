/**
 The part of a Metabase that scripts/metabase_boards.py converges: three shelves of named
 objects, each with ids the server hands out in order. Objects are listed by id; a POST takes
 the next id; a PUT keeps the id and the archived flag; a PUT of dashcards replaces the set
 and gives every negative id a fresh one.
 */
module MetabaseServer {
  import opened Base

  type Id = nat

  datatype Item<+T> = Item(name: string, archived: bool, body: T)

  datatype Shelf<T> = Shelf(items: map<Id, Item<T>>, next: Id) {

    /** The names a listing shows, archived objects left out. */
    function Names(): map<Id, string> {
      map i | i in items && !items[i].archived :: items[i].name
    }

    /** Python's `{x["name"]: x for x in listing}`: the last id of a name wins. */
    function Index(): map<string, Id> {
      IndexUpTo(Names(), next)
    }

    function Put(id: Id, name: string, body: T): Shelf<T>
      requires id in items
    {
      Shelf(items[id := Item(name, items[id].archived, body)], next)
    }

    function Post(name: string, body: T): Shelf<T> {
      Shelf(items[next := Item(name, false, body)], next + 1)
    }

    ghost predicate Valid() {
      forall i :: i in items ==> i < next
    }
  }

  function IndexUpTo(names: map<Id, string>, n: nat): map<string, Id> {
    if n == 0 then map[]
    else
      var before := IndexUpTo(names, n - 1);
      if n - 1 in names then before[names[n - 1] := n - 1] else before
  }

  function FirstUpTo(names: map<Id, string>, name: string, n: nat): Option<Id> {
    if n == 0 then None
    else
      var before := FirstUpTo(names, name, n - 1);
      if before.Some? then before
      else if n - 1 in names && names[n - 1] == name then Some(n - 1)
      else None
  }

  function Lookup(index: map<string, Id>, name: string): Option<Id> {
    if name in index then Some(index[name]) else None
  }

  /** The ids of a name, and which of them each of the two lookups finds. */
  predicate Bears(names: map<Id, string>, i: Id, name: string) {
    i in names && names[i] == name
  }

  lemma {:induction false} IndexIsLast(names: map<Id, string>, n: nat, name: string)
    ensures match Lookup(IndexUpTo(names, n), name)
            case Some(i) => i < n && Bears(names, i, name) && forall j: nat :: j < n && Bears(names, j, name) ==> j <= i
            case None => forall j: nat :: j < n ==> !Bears(names, j, name)
  {
    if n > 0 { IndexIsLast(names, n - 1, name); }
  }

  lemma {:induction false} FirstIsFirst(names: map<Id, string>, n: nat, name: string)
    ensures match FirstUpTo(names, name, n)
            case Some(i) => i < n && Bears(names, i, name) && forall j: nat :: j < n && Bears(names, j, name) ==> i <= j
            case None => forall j: nat :: j < n ==> !Bears(names, j, name)
  {
    if n > 0 { FirstIsFirst(names, n - 1, name); }
  }

  lemma {:induction false} IndexIgnoresLater(names: map<Id, string>, n: nat, k: nat, name: string)
    requires k <= n
    ensures IndexUpTo(names[n := name], k) == IndexUpTo(names, k)
  {
    if k > 0 { IndexIgnoresLater(names, n, k - 1, name); }
  }

  // ------------------------------------------------------------- upserting ---

  datatype Upserted<T> = Upserted(shelf: Shelf<T>, id: Id)

  /** PUT over what was found, or POST. */
  function Upsert<T>(a: Shelf<T>, found: Option<Id>, name: string, body: T): Upserted<T>
    requires found.Some? ==> found.value in a.items
  {
    if found.Some? then Upserted(a.Put(found.value, name, body), found.value)
    else Upserted(a.Post(name, body), a.next)
  }

  /** What may differ between two states of a shelf when only the given names were upserted. */
  ghost predicate Frame<T>(a: Shelf<T>, b: Shelf<T>, names: set<string>) {
    && a.next <= b.next
    && (forall i :: i in a.items ==> Kept(a, b, i, names))
    && (forall i :: i in b.items && i !in a.items ==> Created(a, b, i, names))
    && (forall name :: name in a.Index() ==> name in b.Index() && b.Index()[name] == a.Index()[name])
    && (forall name :: name in b.Index() && name !in names ==> name in a.Index())
  }

  /** Nothing is deleted, archived or renamed; only the object a name finds is rewritten. */
  ghost predicate Kept<T>(a: Shelf<T>, b: Shelf<T>, i: Id, names: set<string>)
    requires i in a.items
  {
    && i in b.items && b.items[i].name == a.items[i].name && b.items[i].archived == a.items[i].archived
    && (b.items[i] == a.items[i] || (a.items[i].name in names && Lookup(a.Index(), a.items[i].name) == Some(i)))
  }

  /** An object is created only for a given name that found nothing. */
  ghost predicate Created<T>(a: Shelf<T>, b: Shelf<T>, i: Id, names: set<string>)
    requires i in b.items
  {
    b.items[i].name in names && b.items[i].name !in a.Index() && i >= a.next
  }

  lemma IndexBears<T>(a: Shelf<T>, name: string)
    requires name in a.Index()
    ensures var i := a.Index()[name]; i in a.items && a.items[i].name == name && !a.items[i].archived && i < a.next
  {
    hide IndexUpTo;
    IndexIsLast(a.Names(), a.next, name);
  }

  lemma BearsIndex<T>(a: Shelf<T>, i: Id)
    requires i in a.items && !a.items[i].archived && i < a.next
    ensures a.items[i].name in a.Index()
  {
    hide IndexUpTo;
    IndexIsLast(a.Names(), a.next, a.items[i].name);
    assert Bears(a.Names(), i, a.items[i].name);
  }

  /** The law of one upsert, for whatever the lookup found. */
  lemma UpsertLaw<T>(a: Shelf<T>, name: string, body: T)
    requires a.Valid()
    ensures Lookup(a.Index(), name).Some? ==> Lookup(a.Index(), name).value in a.items
    ensures var u := Upsert(a, Lookup(a.Index(), name), name, body);
            && u.shelf.Valid() && Frame(a, u.shelf, {name})
            && u.shelf.Index() == a.Index()[name := u.id]
            && u.shelf.items == a.items[u.id := Item(name, false, body)]
  {
    hide IndexUpTo;
    if name in a.Index() {
      IndexBears(a, name);
      assert a.Put(a.Index()[name], name, body).Names() == a.Names();
    } else {
      var b := a.Post(name, body);
      assert b.Names() == a.Names()[a.next := name];
      PostIndex(a.Names(), a.next, name);
    }
  }

  lemma PostIndex(names: map<Id, string>, n: nat, name: string)
    ensures IndexUpTo(names[n := name], n + 1) == IndexUpTo(names, n)[name := n]
  {
    IndexIgnoresLater(names, n, n, name);
  }

  lemma FrameSame<T>(a: Shelf<T>)
    ensures Frame(a, a, {})
  {
  }

  /** Upserts of further names add up. */
  lemma FrameThen<T>(a: Shelf<T>, b: Shelf<T>, c: Shelf<T>, first: set<string>, then': set<string>)
    requires Frame(a, b, first) && Frame(b, c, then') && a.Valid()
    ensures Frame(a, c, first + then')
  {
    var names := first + then';
    forall i | i in a.items ensures Kept(a, c, i, names) {
      assert Kept(a, b, i, first) && Kept(b, c, i, then');
      hide Shelf.Index;
      if b.items[i] == a.items[i] && c.items[i] != b.items[i] {
        KeptFinds(a, b, c, i, first, then');
      }
    }
    forall i | i in c.items && i !in a.items ensures Created(a, c, i, names) {
      hide Shelf.Index;
      if i in b.items {
        assert Created(a, b, i, first) && Kept(b, c, i, then');
      } else {
        assert Created(b, c, i, then');
      }
    }
    hide Shelf.Index, Kept, Created;
  }

  lemma KeptFinds<T>(a: Shelf<T>, b: Shelf<T>, c: Shelf<T>, i: Id, first: set<string>, then': set<string>)
    requires Frame(a, b, first) && a.Valid() && i in a.items && Kept(b, c, i, then')
    requires b.items[i] == a.items[i] && c.items[i] != b.items[i]
    ensures Lookup(a.Index(), a.items[i].name) == Some(i)
  {
    hide Shelf.Index;
    IndexBears(b, a.items[i].name);
    BearsIndex(a, i);
  }

  /** A name nobody upserted finds what it found. */
  lemma FrameLookup<T>(a: Shelf<T>, b: Shelf<T>, names: set<string>, name: string)
    requires Frame(a, b, names) && name !in names
    ensures Lookup(b.Index(), name) == Lookup(a.Index(), name)
  {
  }

  /** An object nobody upserted is what it was. */
  lemma FrameItem<T>(a: Shelf<T>, b: Shelf<T>, names: set<string>, name: string)
    requires Frame(a, b, names) && name !in names && name in a.Index()
    ensures b.Index()[name] == a.Index()[name]
    ensures a.Index()[name] in a.items && a.Index()[name] in b.items
    ensures b.items[b.Index()[name]] == a.items[a.Index()[name]]
  {
    hide Shelf.Index;
    IndexBears(a, name);
    assert Kept(a, b, a.Index()[name], names);
  }
}
