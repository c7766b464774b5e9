/** The session history store (services/historyService.ts): an object store
    keyed by `id`, listed newest-first, capped at the 20 newest sessions.
    The browser database is abstracted to a map from id to item; the order in
    which its `getAll` request yields the items is left to the environment. */
module HistoryStore {
  import opened Base
  import opened Types

  /** How many sessions the store keeps after a save. */
  const RetentionCap: nat := 20

  /** The object store: primary key `id` to the stored item. */
  type Store = map<string, HistoryItem>

  /** The database: `Unavailable` when it cannot be opened (no IndexedDB, or
      the open request fails), otherwise the contents of its one object store. */
  datatype Db = Unavailable | Available(store: Store)

  /** Every item is filed under its own id (the store's key path is `id`). */
  ghost predicate WellKeyed(m: Store) {
    forall k :: k in m ==> m[k].id == k
  }

  ghost predicate Valid(db: Db) {
    db.Available? ==> WellKeyed(db.store)
  }

  /** Newest first: timestamps never increase along the sequence. */
  ghost predicate SortedDesc(s: seq<HistoryItem>) {
    forall i, j :: 0 <= i < j < |s| ==> s[i].timestamp >= s[j].timestamp
  }

  /** `s` lists every stored item exactly once, in some order. */
  ghost predicate Enumerates(s: seq<HistoryItem>, m: Store) {
    WellKeyed(m) && multiset(s) == multiset(m.Values)
  }

  /** The ids of a sequence of items. */
  function Ids(s: seq<HistoryItem>): set<string> {
    set i | 0 <= i < |s| :: s[i].id
  }

  // ---------------------------------------------------------------------------
  // Listing

  /** The items of a store, in the order the environment's `getAll` yields them. */
  method GetAll(m: Store) returns (s: seq<HistoryItem>)
    requires WellKeyed(m)
    ensures Enumerates(s, m)
  {
    s := [];
    var rest := m.Keys;
    while rest != {}
      invariant rest <= m.Keys
      invariant multiset(s) == multiset((m - rest).Values)
      decreases rest
    {
      var k :| k in rest;
      ValuesGrow(m, rest, k);
      s := s + [m[k]];
      rest := rest - {k};
    }
    assert m - rest == m;
  }

  lemma ValuesGrow(m: Store, rest: set<string>, k: string)
    requires WellKeyed(m) && k in rest && rest <= m.Keys
    ensures (m - (rest - {k})).Values == (m - rest).Values + {m[k]}
    ensures m[k] !in (m - rest).Values
  {
    var done := m - rest;
    var done' := m - (rest - {k});
    assert k !in done;
    assert done' == done[k := m[k]];
    forall v | v in done'.Values ensures v in done.Values + {m[k]} {
      var j :| j in done' && done'[j] == v;
      if j != k { assert done[j] == v; }
    }
    forall v | v in done.Values + {m[k]} ensures v in done'.Values {
      if v != m[k] {
        var j :| j in done && done[j] == v;
        assert done'[j] == v;
      } else {
        assert done'[k] == v;
      }
    }
    forall j | j in done ensures done[j] != m[k] {
      assert done[j].id == j;
    }
  }

  /** Insert `x` into a newest-first sequence, ahead of items with an equal timestamp. */
  function Insert(x: HistoryItem, s: seq<HistoryItem>): (r: seq<HistoryItem>)
    requires SortedDesc(s)
    ensures SortedDesc(r)
    ensures multiset(r) == multiset(s) + multiset{x}
  {
    if s == [] then [x]
    else if x.timestamp >= s[0].timestamp then
      ConsSorted(x, s);
      [x] + s
    else
      var t := Insert(x, s[1..]);
      assert s == [s[0]] + s[1..];
      ConsBelow(s[0], t, s[1..], x);
      [s[0]] + t
  }

  /** Consing an item no older than the head keeps a sequence newest-first. */
  lemma ConsSorted(x: HistoryItem, s: seq<HistoryItem>)
    requires SortedDesc(s) && s != [] && x.timestamp >= s[0].timestamp
    ensures SortedDesc([x] + s)
  {
  }

  /** Consing `h` in front of a permutation of `rest + [x]` keeps it newest-first
      when `h` is newer than `x` and no older than everything in `rest`. */
  lemma ConsBelow(h: HistoryItem, t: seq<HistoryItem>, rest: seq<HistoryItem>, x: HistoryItem)
    requires SortedDesc(t) && SortedDesc([h] + rest)
    requires multiset(t) == multiset(rest) + multiset{x}
    requires h.timestamp > x.timestamp
    ensures SortedDesc([h] + t)
  {
    forall i | 0 <= i < |t| ensures h.timestamp >= t[i].timestamp {
      assert ([h] + rest)[0] == h;
      assert t[i] in multiset(t);
      if t[i] != x {
        assert t[i] in multiset(rest);
        assert t[i] in rest;
        var j :| 0 <= j < |rest| && rest[j] == t[i];
        assert ([h] + rest)[j + 1] == rest[j];
      }
    }
  }

  /** The sort `getHistory` applies: by timestamp, newest first. */
  function SortDesc(s: seq<HistoryItem>): (r: seq<HistoryItem>)
    ensures SortedDesc(r)
    ensures multiset(r) == multiset(s)
    ensures |r| == |s|
  {
    if s == [] then []
    else
      assert s == [s[0]] + s[1..];
      Insert(s[0], SortDesc(s[1..]))
  }

  /** `getHistory`: every stored item, newest first; `[]` when the database
      cannot be opened. */
  method GetHistory(db: Db) returns (r: seq<HistoryItem>)
    requires Valid(db)
    ensures db.Unavailable? ==> r == []
    ensures db.Available? ==> Enumerates(r, db.store) && SortedDesc(r)
  {
    if db.Unavailable? {
      return [];
    }
    var all := GetAll(db.store);
    r := SortDesc(all);
  }

  // ---------------------------------------------------------------------------
  // Facts about enumerations

  /** An enumeration holds exactly the stored items. */
  lemma EnumeratesMember(s: seq<HistoryItem>, m: Store, x: HistoryItem)
    requires Enumerates(s, m)
    ensures x in s <==> x.id in m && m[x.id] == x
  {
    assert x in s <==> x in multiset(s);
    if x in m.Values {
      var k :| k in m && m[k] == x;
    }
  }

  /** An enumeration never lists two items with the same id. */
  lemma EnumeratesDistinct(s: seq<HistoryItem>, m: Store)
    requires Enumerates(s, m)
    ensures forall i, j :: 0 <= i < j < |s| ==> s[i].id != s[j].id
  {
    forall i, j | 0 <= i < j < |s| ensures s[i].id != s[j].id {
      if s[i].id == s[j].id {
        EnumeratesMember(s, m, s[i]);
        EnumeratesMember(s, m, s[j]);
        TwiceCounted(s, i, j);
      }
    }
  }

  lemma TwiceCounted(s: seq<HistoryItem>, i: nat, j: nat)
    requires i < j < |s| && s[i] == s[j]
    ensures multiset(s)[s[i]] >= 2
  {
    assert s == s[..i] + [s[i]] + s[i + 1..j] + [s[j]] + s[j + 1..];
  }

  /** An enumeration has one entry per stored item. */
  lemma {:induction false} EnumeratesLength(s: seq<HistoryItem>, m: Store)
    requires Enumerates(s, m)
    ensures |s| == |m|
  {
    calc {
      |s|;
      |multiset(s)|;
      |multiset(m.Values)|;
      { ValuesCount(m); }
      |m|;
    }
  }

  /** In a well-keyed store, distinct keys hold distinct items. */
  lemma {:induction false} ValuesCount(m: Store)
    requires WellKeyed(m)
    ensures |m.Values| == |m|
    decreases |m|
  {
    if m != map[] {
      var k :| k in m;
      var m' := m - {k};
      ValuesCount(m');
      forall v | v in m.Values ensures v in m'.Values + {m[k]} {
        var j :| j in m && m[j] == v;
        if j != k { assert m'[j] == v; }
      }
      forall v | v in m'.Values + {m[k]} ensures v in m.Values {
        if v != m[k] {
          var j :| j in m' && m'[j] == v;
          assert m[j] == v;
        }
      }
      assert m.Values == m'.Values + {m[k]};
      forall j | j in m' ensures m'[j] != m[k] {
        assert m'[j].id == j;
      }
      assert |m'| == |m| - 1;
    }
  }

  /** Items with distinct ids have as many ids as items. */
  lemma {:induction false} IdsCount(s: seq<HistoryItem>)
    requires forall i, j :: 0 <= i < j < |s| ==> s[i].id != s[j].id
    ensures |Ids(s)| == |s|
  {
    if s != [] {
      var t := s[..|s| - 1];
      IdsCount(t);
      assert Ids(s) == Ids(t) + {s[|s| - 1].id};
      assert s[|s| - 1].id !in Ids(t);
    }
  }

  /** Every stored id appears in an enumeration, at exactly one position. */
  lemma EnumeratesOnce(s: seq<HistoryItem>, m: Store, k: string)
    requires Enumerates(s, m) && k in m
    ensures exists i :: 0 <= i < |s| && s[i] == m[k]
    ensures forall i, j :: 0 <= i < |s| && 0 <= j < |s| && s[i].id == k && s[j].id == k ==> i == j
  {
    EnumeratesMember(s, m, m[k]);
    EnumeratesDistinct(s, m);
  }

  // ---------------------------------------------------------------------------
  // Saving

  /** `store.put(item)`: insert, or overwrite the entry with the same id. */
  function Put(m: Store, item: HistoryItem): (r: Store)
    requires WellKeyed(m)
    ensures WellKeyed(r)
    ensures item.id in r && r[item.id] == item
    ensures forall k :: k != item.id ==> (k in r <==> k in m) && (k in m ==> r[k] == m[k])
    ensures item.id in m ==> |r| == |m|
    ensures item.id !in m ==> |r| == |m| + 1
  {
    m[item.id := item]
  }

  /** The retention sweep: when the sorted listing holds more than 20 items,
      delete every item from position 20 on. */
  function Prune(m: Store, sorted: seq<HistoryItem>): (r: Store)
    requires Enumerates(sorted, m) && SortedDesc(sorted)
    ensures r.Keys <= m.Keys && forall k :: k in r ==> r[k] == m[k]
    ensures |m| <= RetentionCap ==> r == m
    ensures |m| > RetentionCap ==> forall i :: RetentionCap <= i < |sorted| ==> sorted[i].id !in r
  {
    EnumeratesLength(sorted, m);
    if |sorted| > RetentionCap then m - Ids(sorted[RetentionCap..]) else m
  }

  /** Pruning only deletes whole entries, never edits a surviving one, keeps
      the store well keyed, and deletes nothing at or under the cap. */
  lemma PruneOnlyRemoves(m: Store, sorted: seq<HistoryItem>)
    requires Enumerates(sorted, m) && SortedDesc(sorted)
    ensures var r := Prune(m, sorted);
            && WellKeyed(r)
            && r.Keys <= m.Keys
            && (forall k :: k in r ==> r[k] == m[k])
            && (|m| <= RetentionCap ==> r == m)
  {
    EnumeratesLength(sorted, m);
  }

  /** Over the cap, exactly the 20 first of the newest-first listing survive. */
  lemma PruneKeepsNewest(m: Store, sorted: seq<HistoryItem>)
    requires Enumerates(sorted, m) && SortedDesc(sorted)
    requires |sorted| > RetentionCap
    ensures Prune(m, sorted).Keys == Ids(sorted[..RetentionCap])
    ensures |Prune(m, sorted)| == RetentionCap
  {
    EnumeratesLength(sorted, m);
    EnumeratesDistinct(sorted, m);
    var r := Prune(m, sorted);
    var kept := Ids(sorted[..RetentionCap]);
    var gone := Ids(sorted[RetentionCap..]);
    forall k | k in r ensures k in kept {
      EnumeratesOnce(sorted, m, k);
      var i :| 0 <= i < |sorted| && sorted[i] == m[k];
      assert i < RetentionCap;
      assert sorted[..RetentionCap][i].id == k;
    }
    forall k | k in kept ensures k in r {
      var i :| 0 <= i < RetentionCap && sorted[..RetentionCap][i].id == k;
      EnumeratesMember(sorted, m, sorted[i]);
      assert k !in gone;
    }
    assert r.Keys == kept;
    IdsCount(sorted[..RetentionCap]);
  }

  /** No deleted item is newer than any surviving item. */
  lemma PruneEvictsOldest(m: Store, sorted: seq<HistoryItem>)
    requires Enumerates(sorted, m) && SortedDesc(sorted)
    ensures var r := Prune(m, sorted);
            forall k, j :: k in r && j in m && j !in r ==> m[j].timestamp <= m[k].timestamp
  {
    var r := Prune(m, sorted);
    if |sorted| > RetentionCap {
      PruneKeepsNewest(m, sorted);
      forall k, j | k in r && j in m && j !in r
        ensures m[j].timestamp <= m[k].timestamp
      {
        KeptNotOlder(m, sorted, k, j);
      }
    }
  }

  /** An item among the first 20 of the listing is no older than any item
      outside them. */
  lemma KeptNotOlder(m: Store, sorted: seq<HistoryItem>, k: string, j: string)
    requires Enumerates(sorted, m) && SortedDesc(sorted) && |sorted| > RetentionCap
    requires k in m && k in Ids(sorted[..RetentionCap]) && j in m && j !in Ids(sorted[..RetentionCap])
    ensures m[j].timestamp <= m[k].timestamp
  {
    EnumeratesDistinct(sorted, m);
    EnumeratesOnce(sorted, m, j);
    var a :| 0 <= a < |sorted[..RetentionCap]| && sorted[..RetentionCap][a].id == k;
    var b :| 0 <= b < |sorted| && sorted[b] == m[j];
    assert forall i :: 0 <= i < RetentionCap ==> sorted[..RetentionCap][i].id in Ids(sorted[..RetentionCap]);
    EnumeratesMember(sorted, m, sorted[a]);
    assert m[k] == sorted[a] && a < b;
  }

  /** The item with the strictly smallest timestamp is evicted once the store overflows. */
  lemma OldestEvicted(m: Store, sorted: seq<HistoryItem>, oldest: string)
    requires Enumerates(sorted, m) && SortedDesc(sorted)
    requires |m| > RetentionCap
    requires oldest in m
    requires forall k :: k in m && k != oldest ==> m[oldest].timestamp < m[k].timestamp
    ensures oldest !in Prune(m, sorted)
  {
    var r := Prune(m, sorted);
    EnumeratesLength(sorted, m);
    PruneKeepsNewest(m, sorted);
    PruneOnlyRemoves(m, sorted);
    PruneEvictsOldest(m, sorted);
    assert |r| < |m|;
    assert !(m.Keys <= r.Keys) by {
      if m.Keys <= r.Keys {
        SubsetCard(m.Keys, r.Keys);
      }
    }
    var j :| j in m && j !in r;
  }

  /** `saveHistoryItem` once the database is open: put the item, then prune
      against the sorted `getAll` result `all` of the updated store. */
  function Save(db: Db, item: HistoryItem, all: seq<HistoryItem>): (r: Db)
    requires Valid(db)
    requires db.Available? ==> Enumerates(all, Put(db.store, item))
    ensures db.Unavailable? ==> r == Unavailable
    ensures db.Available? ==> r.Available? && WellKeyed(r.store)
    ensures db.Available? ==> RetainsNewest(Put(db.store, item), r.store)
  {
    if db.Unavailable? then Unavailable
    else
      var m := Put(db.store, item);
      var sorted := SortDesc(all);
      PruneOnlyRemoves(m, sorted);
      PruneEvictsOldest(m, sorted);
      EnumeratesLength(sorted, m);
      if |m| > RetentionCap then
        PruneKeepsNewest(m, sorted);
        Available(Prune(m, sorted))
      else
        Available(Prune(m, sorted))
  }

  /** The retention rule relating the store after the put, `m`, to the store
      after the sweep, `r`: entries are only removed, never edited; nothing
      goes at or under the cap; over it exactly 20 remain; and no removed
      entry is newer than a kept one. */
  ghost predicate RetainsNewest(m: Store, r: Store) {
    && r.Keys <= m.Keys
    && (forall k :: k in r ==> r[k] == m[k])
    && (|m| <= RetentionCap ==> r == m)
    && (|m| > RetentionCap ==> |r| == RetentionCap)
    && (forall k, j :: k in r && j in m && j !in r ==> m[j].timestamp <= m[k].timestamp)
  }

  /** `saveHistoryItem`: upsert by id, then cut the store back to the 20
      newest. A database that cannot be opened is left as it is, silently. */
  method SaveHistoryItem(db: Db, item: HistoryItem) returns (r: Db)
    requires Valid(db)
    ensures Valid(r)
    ensures db.Unavailable? ==> r == db
    ensures db.Available? ==> r.Available?
    ensures db.Available? ==> |r.store| <= RetentionCap || r.store == Put(db.store, item)
    ensures db.Available? ==> |Put(db.store, item)| <= RetentionCap ==> r.store == Put(db.store, item)
    ensures db.Available? ==> item.id in r.store ==> r.store[item.id] == item
    ensures db.Available? ==> forall k :: k in r.store ==> k in db.store || k == item.id
    ensures db.Available? ==> forall k :: k in r.store && k != item.id ==> r.store[k] == db.store[k]
    ensures db.Available? && |Put(db.store, item)| > RetentionCap ==> |r.store| == RetentionCap
    ensures db.Available? ==>
              forall k, j :: k in r.store && j in Put(db.store, item) && j !in r.store ==>
                Put(db.store, item)[j].timestamp <= r.store[k].timestamp
    ensures db.Available? ==> exists all :: Enumerates(all, Put(db.store, item)) && r == Save(db, item, all)
  {
    if db.Unavailable? {
      return db;
    }
    var m := Put(db.store, item);
    var all := GetAll(m);
    var sorted := SortDesc(all);
    PruneOnlyRemoves(m, sorted);
    EnumeratesLength(sorted, m);
    if |m| > RetentionCap {
      PruneKeepsNewest(m, sorted);
    }
    r := Save(db, item, all);
  }

  /** A newly saved item that is strictly newer than everything stored survives
      the sweep and is the only entry under its id. */
  lemma SaveKeepsNewest(db: Db, item: HistoryItem, all: seq<HistoryItem>)
    requires Valid(db) && db.Available?
    requires Enumerates(all, Put(db.store, item))
    requires forall k :: k in db.store && k != item.id ==> db.store[k].timestamp < item.timestamp
    ensures var r := Save(db, item, all);
            item.id in r.store && r.store[item.id] == item
  {
  }

  /** Saving an item whose id is stored overwrites it: the store does not grow. */
  lemma SaveOverwrites(db: Db, item: HistoryItem, all: seq<HistoryItem>)
    requires Valid(db) && db.Available? && item.id in db.store
    requires Enumerates(all, Put(db.store, item))
    ensures |Save(db, item, all).store| <= |db.store|
  {
  }

  lemma SubsetCard(a: set<string>, b: set<string>)
    requires a <= b
    ensures |a| <= |b|
  {
    assert b == a + (b - a);
  }

  // ---------------------------------------------------------------------------
  // Deleting

  /** `store.delete(id)`: absent ids are not an error. */
  function Remove(m: Store, id: string): (r: Store)
    requires WellKeyed(m)
    ensures WellKeyed(r)
    ensures id !in r
    ensures forall k :: k != id ==> (k in r <==> k in m) && (k in r ==> r[k] == m[k])
  {
    m - {id}
  }

  /** Deleting twice is deleting once. */
  lemma RemoveIdempotent(m: Store, id: string)
    requires WellKeyed(m)
    ensures Remove(Remove(m, id), id) == Remove(m, id)
    ensures id !in m ==> Remove(m, id) == m
  {
  }

  /** `deleteHistoryItem`: delete the entry, then return the refreshed
      newest-first listing; `[]` when the database cannot be opened. */
  method DeleteHistoryItem(db: Db, id: string) returns (db': Db, r: seq<HistoryItem>)
    requires Valid(db)
    ensures Valid(db')
    ensures db.Unavailable? ==> db' == db && r == []
    ensures db.Available? ==> db' == Available(Remove(db.store, id))
    ensures db.Available? ==> Enumerates(r, db'.store) && SortedDesc(r)
    ensures forall i :: 0 <= i < |r| ==> r[i].id != id
  {
    if db.Unavailable? {
      return db, [];
    }
    db' := Available(Remove(db.store, id));
    r := GetHistory(db');
    forall i | 0 <= i < |r| ensures r[i].id != id {
      EnumeratesMember(r, db'.store, r[i]);
    }
  }
}
