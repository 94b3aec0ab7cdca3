/** The duplicate cleanup script of the database service. It groups the
    admission records by (name, age, mobile, date of birth), keeps the first
    record of every group with more than one member and deletes the rest,
    adding up how many records each deletion removed.

    "First" is the first id the grouping stage pushed into the group. The
    database does not promise that order unless the records are sorted
    before grouping, and the script does not sort them; the model takes it
    to be store order, so which record of a group survives is a modelling
    choice. Nor does the database promise an order for the groups it
    returns; they are taken here in order of first appearance, and the
    records deleted do not depend on that order (they are a union over the
    groups). */
module DuplicateCleanup {
  import opened Dates
  import opened StudentSchema
  import opened RecordStore

  /** The fields records are grouped by. */
  datatype Key = Key(name: string, age: int, mobile: string, dob: CalendarDate)

  function KeyOf(r: Record): Key {
    Key(r.student.name, r.student.age, r.student.mobile, r.student.dob)
  }

  function KeySet(store: Store): set<Key> {
    set r | r in store :: KeyOf(r)
  }

  /** Some earlier record shares the key of the record at position `i`. */
  predicate HasEarlierTwin(store: Store, i: nat)
    requires i < |store|
  {
    KeyOf(store[i]) in KeySet(store[..i])
  }

  /** No two records share a key. */
  predicate NoDuplicateKeys(store: Store) {
    forall i, j :: 0 <= i < j < |store| ==> KeyOf(store[i]) != KeyOf(store[j])
  }

  // ---------------------------------------------------------------------------
  // The aggregation: $group by key with $push of the ids, then $match count > 1
  // ---------------------------------------------------------------------------

  /** The ids of the records with key `k`, in store order. */
  function GroupIds(store: Store, k: Key): (ids: seq<Id>)
    ensures |ids| <= |store|
    ensures ids == [] <==> k !in KeySet(store)
  {
    if store == [] then []
    else
      var p := store[..|store| - 1];
      var last := store[|store| - 1];
      assert store == p + [last];
      assert KeySet(store) == KeySet(p) + {KeyOf(last)};
      GroupIds(p, k) + (if KeyOf(last) == k then [last.id] else [])
  }

  /** Every id of a group belongs to a record of the store with that key. */
  lemma {:induction false} GroupIdsFromStore(store: Store, k: Key, id: Id)
    requires id in GroupIds(store, k)
    ensures exists j :: 0 <= j < |store| && store[j].id == id && KeyOf(store[j]) == k
  {
    var p := store[..|store| - 1];
    var last := store[|store| - 1];
    if id in GroupIds(p, k) {
      GroupIdsFromStore(p, k, id);
      var j :| 0 <= j < |p| && p[j].id == id && KeyOf(p[j]) == k;
      assert store[j] == p[j];
    } else {
      assert store[|store| - 1] == last;
    }
  }

  /** Every record with the key has its id pushed into the group. */
  lemma {:induction false} GroupIdsComplete(store: Store, k: Key, j: nat)
    requires j < |store| && KeyOf(store[j]) == k
    ensures store[j].id in GroupIds(store, k)
  {
    var p := store[..|store| - 1];
    if j < |p| {
      assert p[j] == store[j];
      GroupIdsComplete(p, k, j);
    }
  }

  /** One output document of the grouping stage. */
  datatype Group = Group(key: Key, ids: seq<Id>, count: nat)

  function GroupOf(store: Store, k: Key): Group {
    Group(k, GroupIds(store, k), |GroupIds(store, k)|)
  }

  /** The keys of the store, each once, in order of first appearance. */
  function DistinctKeys(store: Store): (ks: seq<Key>)
    ensures forall k :: k in ks <==> k in KeySet(store)
    ensures forall a, b :: 0 <= a < b < |ks| ==> ks[a] != ks[b]
  {
    if store == [] then []
    else
      var p := store[..|store| - 1];
      var last := store[|store| - 1];
      assert store == p + [last];
      assert KeySet(store) == KeySet(p) + {KeyOf(last)};
      var ks := DistinctKeys(p);
      if KeyOf(last) in ks then ks else ks + [KeyOf(last)]
  }

  function GroupsOf(store: Store, ks: seq<Key>): (gs: seq<Group>)
    ensures |gs| == |ks|
    ensures forall t :: 0 <= t < |gs| ==> gs[t] == GroupOf(store, ks[t])
  {
    if ks == [] then [] else [GroupOf(store, ks[0])] + GroupsOf(store, ks[1..])
  }

  /** No two groups of the list share a key. */
  predicate KeysDistinct(gs: seq<Group>) {
    forall a, b :: 0 <= a < b < |gs| ==> gs[a].key != gs[b].key
  }

  /** The grouping stage: one group per key, holding the ids of its records
      and their number. */
  function GroupByKey(store: Store): (gs: seq<Group>)
    ensures forall g :: g in gs ==> g == GroupOf(store, g.key) && g.key in KeySet(store)
    ensures forall k :: k in KeySet(store) ==> GroupOf(store, k) in gs
    ensures KeysDistinct(gs)
  {
    var ks := DistinctKeys(store);
    var gs := GroupsOf(store, ks);
    assert forall k :: k in KeySet(store) ==> GroupOf(store, k) in gs by {
      forall k | k in KeySet(store)
        ensures GroupOf(store, k) in gs
      {
        var t :| 0 <= t < |ks| && ks[t] == k;
        assert gs[t] == GroupOf(store, k);
      }
    }
    gs
  }

  /** The matching stage: the groups with more than one member. */
  function MoreThanOne(gs: seq<Group>): (out: seq<Group>)
    ensures forall g :: g in out <==> g in gs && g.count > 1
  {
    if gs == [] then []
    else
      assert gs == [gs[0]] + gs[1..];
      (if gs[0].count > 1 then [gs[0]] else []) + MoreThanOne(gs[1..])
  }

  /** Filtering keeps distinct keys distinct. */
  lemma {:induction false} MoreThanOneKeepsDistinct(gs: seq<Group>)
    requires KeysDistinct(gs)
    ensures KeysDistinct(MoreThanOne(gs))
  {
    if gs != [] {
      var tail := gs[1..];
      assert KeysDistinct(tail) by {
        forall a, b | 0 <= a < b < |tail|
          ensures tail[a].key != tail[b].key
        {
          assert tail[a] == gs[a + 1] && tail[b] == gs[b + 1];
        }
      }
      MoreThanOneKeepsDistinct(tail);
      var rest := MoreThanOne(tail);
      if gs[0].count > 1 {
        var out := [gs[0]] + rest;
        forall a, b | 0 <= a < b < |out|
          ensures out[a].key != out[b].key
        {
          if a == 0 {
            assert out[b] == rest[b - 1] && rest[b - 1] in rest;
            var t :| 0 <= t < |tail| && tail[t] == rest[b - 1];
            assert tail[t] == gs[t + 1];
          } else {
            assert out[a] == rest[a - 1] && out[b] == rest[b - 1];
          }
        }
      }
    }
  }

  /** The aggregation's result: the groups of duplicates, one per key. */
  function DuplicateGroups(store: Store): (gs: seq<Group>)
    ensures forall g :: g in gs <==> g.key in KeySet(store) && g == GroupOf(store, g.key) && g.count > 1
    ensures KeysDistinct(gs)
  {
    MoreThanOneKeepsDistinct(GroupByKey(store));
    MoreThanOne(GroupByKey(store))
  }

  // ---------------------------------------------------------------------------
  // The deletion loop
  // ---------------------------------------------------------------------------

  /** `ids.slice(1)`: every id but the first, nothing for an empty list. */
  function AllButFirst(ids: seq<Id>): (rest: seq<Id>)
    ensures ids != [] ==> ids == [ids[0]] + rest
    ensures ids == [] ==> rest == []
  {
    if ids == [] then [] else ids[1..]
  }

  function IdSet(ids: seq<Id>): set<Id> {
    set id | id in ids
  }

  /** `deleteMany({_id: {$in: ids}})`: the store without the records whose id
      is in `drop`. */
  function DeleteMany(store: Store, drop: set<Id>): (out: Store)
    ensures |out| <= |store|
    ensures forall r :: r in out ==> r in store && r.id !in drop
  {
    if store == [] then []
    else
      var p := store[..|store| - 1];
      var last := store[|store| - 1];
      DeleteMany(p, drop) + (if last.id in drop then [] else [last])
  }

  /** The ids every group gives up: all but its first. */
  function Doomed(gs: seq<Group>): (drop: set<Id>)
  {
    if gs == [] then {}
    else IdSet(AllButFirst(gs[0].ids)) + Doomed(gs[1..])
  }

  lemma {:induction false} DoomedMembers(gs: seq<Group>, id: Id)
    ensures id in Doomed(gs) <==> exists g :: g in gs && id in AllButFirst(g.ids)
  {
    if gs != [] {
      DoomedMembers(gs[1..], id);
      assert gs == [gs[0]] + gs[1..];
    }
  }

  /** The loop over the groups: keep the first id, delete the rest, and add
      the number of records deleted to the running total. */
  function DeleteGroups(store: Store, gs: seq<Group>): (res: (Store, nat))
    ensures res.1 == |store| - |res.0|
    decreases |gs|
  {
    if gs == [] then (store, 0)
    else
      var after := DeleteMany(store, IdSet(AllButFirst(gs[0].ids)));
      var deleted := |store| - |after|;
      var rest := DeleteGroups(after, gs[1..]);
      (rest.0, deleted + rest.1)
  }

  /** The cleanup script: the store left behind and the total removed. */
  function RemoveDuplicates(store: Store): (res: (Store, nat))
    ensures res.1 == |store| - |res.0|
  {
    DeleteGroupsIsDeleteMany(store, DuplicateGroups(store));
    DeleteGroups(store, DuplicateGroups(store))
  }

  lemma DeleteManyAppend(store: Store, r: Record, drop: set<Id>)
    ensures DeleteMany(store + [r], drop) == DeleteMany(store, drop) + (if r.id in drop then [] else [r])
  {
    assert (store + [r])[..|store|] == store;
  }

  /** Deleting twice is deleting the union. */
  lemma {:induction false} DeleteManyTwice(store: Store, a: set<Id>, b: set<Id>)
    ensures DeleteMany(DeleteMany(store, a), b) == DeleteMany(store, a + b)
  {
    if store != [] {
      var p := store[..|store| - 1];
      var last := store[|store| - 1];
      DeleteManyTwice(p, a, b);
      var once := DeleteMany(p, a);
      if last.id in a {
        assert DeleteMany(store, a) == once;
        assert DeleteMany(store, a + b) == DeleteMany(p, a + b);
      } else {
        assert DeleteMany(store, a) == once + [last];
        DeleteManyAppend(once, last, b);
      }
    }
  }

  lemma {:induction false} DeleteManyNothing(store: Store)
    ensures DeleteMany(store, {}) == store
  {
    if store != [] {
      var p := store[..|store| - 1];
      DeleteManyNothing(p);
      assert p + [store[|store| - 1]] == store;
    }
  }

  /** The loop deletes exactly the doomed ids, and its running total is the
      number of records deleted. */
  lemma {:induction false} DeleteGroupsIsDeleteMany(store: Store, gs: seq<Group>)
    ensures DeleteGroups(store, gs).0 == DeleteMany(store, Doomed(gs))
    ensures DeleteGroups(store, gs).1 == |store| - |DeleteGroups(store, gs).0|
    decreases |gs|
  {
    if gs == [] {
      DeleteManyNothing(store);
    } else {
      var first := IdSet(AllButFirst(gs[0].ids));
      var after := DeleteMany(store, first);
      DeleteGroupsIsDeleteMany(after, gs[1..]);
      DeleteManyTwice(store, first, Doomed(gs[1..]));
    }
  }

  // ---------------------------------------------------------------------------
  // Keep-first: the reference definition of the cleanup
  // ---------------------------------------------------------------------------

  /** Each record whose key has not occurred before it, in store order. */
  function KeepFirst(store: Store): (out: Store)
    ensures |out| <= |store|
  {
    if store == [] then []
    else
      var p := store[..|store| - 1];
      var last := store[|store| - 1];
      KeepFirst(p) + (if KeyOf(last) in KeySet(p) then [] else [last])
  }

  /** Deleting the ids of the records that have an earlier twin is keeping
      the first of each key. */
  lemma {:induction false} DeleteTwinsIsKeepFirst(store: Store, drop: set<Id>)
    requires forall i :: 0 <= i < |store| ==> (store[i].id in drop <==> HasEarlierTwin(store, i))
    ensures DeleteMany(store, drop) == KeepFirst(store)
  {
    if store != [] {
      var n := |store|;
      var p := store[..n - 1];
      forall i | 0 <= i < |p|
        ensures p[i].id in drop <==> HasEarlierTwin(p, i)
      {
        assert p[i] == store[i] && p[..i] == store[..i];
      }
      DeleteTwinsIsKeepFirst(p, drop);
      assert store[..n - 1] == p;
      assert store[n - 1].id in drop <==> HasEarlierTwin(store, n - 1);
    }
  }

  /** The last record's id is past the first of its group exactly when an
      earlier record shares its key. */
  lemma TailIffLast(store: Store)
    requires store != []
    ensures store[|store| - 1].id in AllButFirst(GroupIds(store, KeyOf(store[|store| - 1])))
            <==> HasEarlierTwin(store, |store| - 1)
  {
    var n := |store|;
    var p := store[..n - 1];
    var last := store[n - 1];
    var gp := GroupIds(p, KeyOf(last));
    assert GroupIds(store, KeyOf(last)) == gp + [last.id];
    assert store[..n - 1] == p;
    if gp == [] {
      assert AllButFirst(gp + [last.id]) == [];
    } else {
      assert AllButFirst(gp + [last.id]) == AllButFirst(gp) + [last.id];
    }
  }

  /** Appending a record with another id does not move an earlier record's
      id within its group. */
  lemma TailIffEarlier(store: Store, i: nat)
    requires i < |store| - 1 && store[i].id != store[|store| - 1].id
    ensures var p := store[..|store| - 1];
            store[i].id in AllButFirst(GroupIds(store, KeyOf(store[i])))
            <==> p[i].id in AllButFirst(GroupIds(p, KeyOf(p[i])))
  {
    var n := |store|;
    var p := store[..n - 1];
    var last := store[n - 1];
    var k := KeyOf(store[i]);
    var gp := GroupIds(p, k);
    assert store[i] == p[i];
    assert p[i] in p;
    var extra := if KeyOf(last) == k then [last.id] else [];
    assert GroupIds(store, k) == gp + extra;
    assert AllButFirst(gp + extra) == AllButFirst(gp) + extra;
  }

  /** Within its group's ids, a record's id comes after the first exactly when
      an earlier record has the same key (no later record sharing its id). */
  lemma {:induction false} TailIff(store: Store, i: nat)
    requires i < |store|
    requires forall j :: i < j < |store| ==> store[j].id != store[i].id
    ensures store[i].id in AllButFirst(GroupIds(store, KeyOf(store[i]))) <==> HasEarlierTwin(store, i)
  {
    var n := |store|;
    if i == n - 1 {
      TailIffLast(store);
    } else {
      var p := store[..n - 1];
      assert store[i] == p[i] && store[..i] == p[..i];
      assert forall j :: i < j < |p| ==> p[j].id != p[i].id;
      TailIffEarlier(store, i);
      TailIff(p, i);
      assert HasEarlierTwin(store, i) == HasEarlierTwin(p, i);
    }
  }

  /** The ids the aggregation dooms are exactly those of the records with an
      earlier twin. */
  lemma DoomedIff(store: Store, i: nat)
    requires UniqueIds(store) && i < |store|
    ensures store[i].id in Doomed(DuplicateGroups(store)) <==> HasEarlierTwin(store, i)
  {
    var k := KeyOf(store[i]);
    var x := store[i];
    var gs := DuplicateGroups(store);
    TailIff(store, i);
    DoomedMembers(gs, x.id);
    if HasEarlierTwin(store, i) {
      assert x in store;
      var g := GroupOf(store, k);
      assert g in GroupByKey(store);
      assert g.count > 1;
      assert g in gs;
    }
    if x.id in Doomed(gs) {
      var g :| g in gs && x.id in AllButFirst(g.ids);
      assert g == GroupOf(store, g.key);
      GroupIdsFromStore(store, g.key, x.id);
      var j :| 0 <= j < |store| && store[j].id == x.id && KeyOf(store[j]) == g.key;
      assert store[j] in store && store[i] in store;
      assert j == i;
    }
  }

  /** The cleanup leaves the first record of every key and nothing else, in
      store order, and reports how many it removed. */
  lemma RemoveDuplicatesKeepsFirst(store: Store)
    requires UniqueIds(store)
    ensures RemoveDuplicates(store).0 == KeepFirst(store)
    ensures RemoveDuplicates(store).1 == |store| - |KeepFirst(store)|
  {
    var gs := DuplicateGroups(store);
    DeleteGroupsIsDeleteMany(store, gs);
    forall i | 0 <= i < |store|
      ensures store[i].id in Doomed(gs) <==> HasEarlierTwin(store, i)
    {
      DoomedIff(store, i);
    }
    DeleteTwinsIsKeepFirst(store, Doomed(gs));
  }

  // ---------------------------------------------------------------------------
  // What the cleanup leaves behind
  // ---------------------------------------------------------------------------

  lemma {:induction false} DeleteManyMembers(store: Store, drop: set<Id>)
    ensures forall r :: r in DeleteMany(store, drop) <==> r in store && r.id !in drop
  {
    if store != [] {
      var p := store[..|store| - 1];
      DeleteManyMembers(p, drop);
      assert store == p + [store[|store| - 1]];
    }
  }

  /** A record stays exactly when no earlier record shares its key: the first
      of every group is kept and the others are deleted. */
  lemma KeptIff(store: Store, i: nat)
    requires UniqueIds(store) && i < |store|
    ensures store[i] in RemoveDuplicates(store).0 <==> !HasEarlierTwin(store, i)
  {
    var gs := DuplicateGroups(store);
    DeleteGroupsIsDeleteMany(store, gs);
    DeleteManyMembers(store, Doomed(gs));
    DoomedIff(store, i);
    assert store[i] in store;
  }

  /** A record whose key no other record has survives the cleanup. */
  lemma UniqueKeySurvives(store: Store, i: nat)
    requires UniqueIds(store) && i < |store|
    requires forall j :: 0 <= j < |store| && j != i ==> KeyOf(store[j]) != KeyOf(store[i])
    ensures store[i] in RemoveDuplicates(store).0
  {
    forall r | r in store[..i]
      ensures KeyOf(r) != KeyOf(store[i])
    {
      var j :| 0 <= j < i && store[..i][j] == r;
      assert store[j] == r;
    }
    KeptIff(store, i);
  }

  /** The positions of `store` that the keep-first list takes its records
      from. */
  function KeptPositions(store: Store): (idx: seq<nat>)
    ensures forall t :: 0 <= t < |idx| ==> idx[t] < |store|
  {
    if store == [] then []
    else
      var p := store[..|store| - 1];
      KeptPositions(p) + (if KeyOf(store[|store| - 1]) in KeySet(p) then [] else [|store| - 1])
  }

  /** `idx` picks the records of `a` out of `b`, in increasing positions. */
  predicate Embeds(idx: seq<nat>, a: Store, b: Store) {
    && |idx| == |a|
    && (forall t :: 0 <= t < |idx| ==> idx[t] < |b| && a[t] == b[idx[t]])
    && (forall t, u :: 0 <= t < u < |idx| ==> idx[t] < idx[u])
  }

  /** `a` is `b` with some records left out and the rest in the same order. */
  ghost predicate IsSubsequence(a: Store, b: Store) {
    exists idx: seq<nat> :: Embeds(idx, a, b)
  }

  lemma {:induction false} KeptPositionsEmbed(store: Store)
    ensures Embeds(KeptPositions(store), KeepFirst(store), store)
  {
    if store != [] {
      var n := |store|;
      var p := store[..n - 1];
      KeptPositionsEmbed(p);
      var idx := KeptPositions(p);
      var kept := KeepFirst(p);
      assert forall t :: 0 <= t < |idx| ==> kept[t] == store[idx[t]];
    }
  }

  /** Deleting only ever removes records: what is left is a subsequence of
      the store. */
  lemma CleanupIsSubsequence(store: Store)
    requires UniqueIds(store)
    ensures IsSubsequence(RemoveDuplicates(store).0, store)
  {
    RemoveDuplicatesKeepsFirst(store);
    KeptPositionsEmbed(store);
  }

  lemma EmbedKeepsUniqueIds(idx: seq<nat>, a: Store, b: Store)
    requires Embeds(idx, a, b) && UniqueIds(b)
    ensures UniqueIds(a)
  {
    forall t, u | 0 <= t < u < |a|
      ensures a[t].id != a[u].id
    {
      assert idx[t] < idx[u];
    }
  }

  /** Keep-first loses no key. */
  lemma {:induction false} KeepFirstKeys(store: Store)
    ensures KeySet(KeepFirst(store)) == KeySet(store)
  {
    if store != [] {
      var p := store[..|store| - 1];
      var last := store[|store| - 1];
      KeepFirstKeys(p);
      assert store == p + [last];
      assert KeySet(store) == KeySet(p) + {KeyOf(last)};
      var e := if KeyOf(last) in KeySet(p) then [] else [last];
      assert KeySet(KeepFirst(p) + e) == KeySet(KeepFirst(p)) + KeySet(e);
    }
  }

  /** Keep-first leaves no two records with the same key. */
  lemma {:induction false} KeepFirstNoDuplicateKeys(store: Store)
    ensures NoDuplicateKeys(KeepFirst(store))
  {
    if store != [] {
      var p := store[..|store| - 1];
      var last := store[|store| - 1];
      KeepFirstNoDuplicateKeys(p);
      KeepFirstKeys(p);
      var kept := KeepFirst(p);
      if KeyOf(last) !in KeySet(p) {
        var out := kept + [last];
        forall i, j | 0 <= i < j < |out|
          ensures KeyOf(out[i]) != KeyOf(out[j])
        {
          assert out[i] == kept[i];
          assert kept[i] in kept;
        }
      }
    }
  }

  /** After the cleanup every key the store had is still there, once. */
  lemma CleanupKeys(store: Store)
    requires UniqueIds(store)
    ensures KeySet(RemoveDuplicates(store).0) == KeySet(store)
    ensures NoDuplicateKeys(RemoveDuplicates(store).0)
  {
    RemoveDuplicatesKeepsFirst(store);
    KeepFirstKeys(store);
    KeepFirstNoDuplicateKeys(store);
  }

  /** A store without duplicate keys is its own keep-first list. */
  lemma {:induction false} KeepFirstOfDistinct(store: Store)
    requires NoDuplicateKeys(store)
    ensures KeepFirst(store) == store
  {
    if store != [] {
      var n := |store|;
      var p := store[..n - 1];
      var last := store[n - 1];
      assert NoDuplicateKeys(p) by {
        forall i, j | 0 <= i < j < |p|
          ensures KeyOf(p[i]) != KeyOf(p[j])
        {
          assert p[i] == store[i] && p[j] == store[j];
        }
      }
      assert KeyOf(last) !in KeySet(p) by {
        forall r | r in p
          ensures KeyOf(r) != KeyOf(last)
        {
          var j :| 0 <= j < |p| && p[j] == r;
          assert store[j] == r;
        }
      }
      KeepFirstOfDistinct(p);
      assert store == p + [last];
    }
  }

  /** Running the cleanup a second time removes nothing. */
  lemma RemoveDuplicatesIdempotent(store: Store)
    requires UniqueIds(store)
    ensures RemoveDuplicates(RemoveDuplicates(store).0) == (RemoveDuplicates(store).0, 0)
  {
    var out := KeepFirst(store);
    RemoveDuplicatesKeepsFirst(store);
    KeptPositionsEmbed(store);
    EmbedKeepsUniqueIds(KeptPositions(store), out, store);
    KeepFirstNoDuplicateKeys(store);
    KeepFirstOfDistinct(out);
    RemoveDuplicatesKeepsFirst(out);
  }

  // ---------------------------------------------------------------------------
  // The running total: one less than each duplicate group's size
  // ---------------------------------------------------------------------------

  /** The sum of `count - 1` over the groups. */
  function Excess(gs: seq<Group>): int {
    if gs == [] then 0 else gs[0].count - 1 + Excess(gs[1..])
  }

  /** The sum of the group sizes of the keys `ks`. */
  function SumCounts(store: Store, ks: seq<Key>): nat {
    if ks == [] then 0 else |GroupIds(store, ks[0])| + SumCounts(store, ks[1..])
  }

  /** How often `k` occurs in `ks`. */
  function Occurrences(ks: seq<Key>, k: Key): nat {
    if ks == [] then 0 else (if ks[0] == k then 1 else 0) + Occurrences(ks[1..], k)
  }

  lemma {:induction false} OccurrencesDistinct(ks: seq<Key>, k: Key)
    requires forall a, b :: 0 <= a < b < |ks| ==> ks[a] != ks[b]
    ensures Occurrences(ks, k) == if k in ks then 1 else 0
  {
    if ks != [] {
      OccurrencesDistinct(ks[1..], k);
      assert ks[0] == k ==> k !in ks[1..];
    }
  }

  /** Groups with at least one member lose nothing to the match on
      `count > 1`: a group of one contributes nothing. */
  lemma {:induction false} ExcessOfMoreThanOne(gs: seq<Group>)
    requires forall g :: g in gs ==> g.count >= 1
    ensures Excess(MoreThanOne(gs)) == Excess(gs)
  {
    if gs != [] {
      assert gs[0] in gs;
      assert forall g :: g in gs[1..] ==> g in gs;
      ExcessOfMoreThanOne(gs[1..]);
      var rest := MoreThanOne(gs[1..]);
      if gs[0].count > 1 {
        assert ([gs[0]] + rest)[1..] == rest;
      } else {
        assert [] + rest == rest;
      }
    }
  }

  lemma {:induction false} ExcessOfGroups(store: Store, ks: seq<Key>)
    ensures Excess(GroupsOf(store, ks)) == SumCounts(store, ks) - |ks|
  {
    if ks != [] {
      ExcessOfGroups(store, ks[1..]);
    }
  }

  lemma {:induction false} SumCountsAppend(store: Store, ks: seq<Key>, k: Key)
    ensures SumCounts(store, ks + [k]) == SumCounts(store, ks) + |GroupIds(store, k)|
  {
    if ks != [] {
      assert (ks + [k])[1..] == ks[1..] + [k];
      SumCountsAppend(store, ks[1..], k);
    }
  }

  /** One more record adds one to the size of its own key's group. */
  lemma {:induction false} SumCountsStep(store: Store, ks: seq<Key>)
    requires store != []
    ensures SumCounts(store, ks) == SumCounts(store[..|store| - 1], ks) + Occurrences(ks, KeyOf(store[|store| - 1]))
  {
    if ks != [] {
      SumCountsStep(store, ks[1..]);
    }
  }

  /** The groups' sizes add up to the number of records. */
  lemma {:induction false} SumCountsIsSize(store: Store)
    ensures SumCounts(store, DistinctKeys(store)) == |store|
  {
    if store != [] {
      var p := store[..|store| - 1];
      var last := store[|store| - 1];
      var ks := DistinctKeys(p);
      SumCountsIsSize(p);
      SumCountsStep(store, ks);
      OccurrencesDistinct(ks, KeyOf(last));
      if KeyOf(last) !in ks {
        SumCountsAppend(store, ks, KeyOf(last));
        assert GroupIds(store, KeyOf(last)) == GroupIds(p, KeyOf(last)) + [last.id];
      }
    }
  }

  lemma {:induction false} KeepFirstSize(store: Store)
    ensures |KeepFirst(store)| == |DistinctKeys(store)|
  {
    if store != [] {
      KeepFirstSize(store[..|store| - 1]);
    }
  }

  /** The total the script reports is the sum, over the duplicate groups, of
      one less than the group's size. */
  lemma RemovedCountIsExcess(store: Store)
    requires UniqueIds(store)
    ensures RemoveDuplicates(store).1 == Excess(DuplicateGroups(store))
  {
    var ks := DistinctKeys(store);
    RemoveDuplicatesKeepsFirst(store);
    KeepFirstSize(store);
    SumCountsIsSize(store);
    ExcessOfGroups(store, ks);
    ExcessOfMoreThanOne(GroupByKey(store));
  }
}
