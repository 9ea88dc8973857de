/** A table whose rows belong to an owner and are unique by owner and key, as an SQL unique index has
    it: a row without a key (a NULL, or outside a partial index) conflicts with none. Replacing an
    owner's rows means upserting the new ones, remembering their IDs, and deleting the rest. */
module SnapshotTables {
  import opened Options

  datatype Row<O, K, D> = Row(owner: O, key: Option<K>, data: D)

  datatype Item<K, D> = Item(key: Option<K>, data: D)

  /** Row IDs lie below the next fresh one, and the unique index holds. */
  ghost predicate Valid<O, K, D>(t: map<nat, Row<O, K, D>>, next: nat) {
    && (forall i | i in t :: i < next)
    && (forall i, j | i in t && j in t && i != j && t[i].owner == t[j].owner && t[i].key == t[j].key :: t[i].key.None?)
  }

  ghost predicate Has<O, K, D>(t: map<nat, Row<O, K, D>>, owner: O, key: K, id: nat) {
    id in t && t[id].owner == owner && t[id].key == Some(key)
  }

  /** The row of an owner with a key. */
  ghost function Find<O, K, D>(t: map<nat, Row<O, K, D>>, owner: O, key: Option<K>): (found: Option<nat>)
    ensures found.Some? ==> key.Some? && Has(t, owner, key.value, found.value)
    ensures found.None? && key.Some? ==> forall id :: !Has(t, owner, key.value, id)
  {
    if key.Some? && exists id :: Has(t, owner, key.value, id)
    then (var id :| Has(t, owner, key.value, id); Some(id))
    else None
  }

  /** What the table says under a key. */
  ghost function At<O, K, D>(t: map<nat, Row<O, K, D>>, owner: O, key: K): Option<D> {
    var found := Find(t, owner, Some(key));
    if found.Some? then Some(t[found.value].data) else None
  }

  lemma FindIs<O, K, D>(t: map<nat, Row<O, K, D>>, next: nat, owner: O, key: K, id: nat)
    requires Valid(t, next) && Has(t, owner, key, id)
    ensures Find(t, owner, Some(key)) == Some(id)
  {
  }

  // ----- one row

  /** The ID a statement returns: of the conflicting row, or a fresh one. */
  ghost function TargetId<O, K, D>(t: map<nat, Row<O, K, D>>, owner: O, item: Item<K, D>, next: nat): nat {
    var found := Find(t, owner, item.key);
    if found.Some? then found.value else next
  }

  ghost function UpsertRow<O, K, D>(t: map<nat, Row<O, K, D>>, owner: O, item: Item<K, D>, next: nat): map<nat, Row<O, K, D>> {
    t[TargetId(t, owner, item, next) := Row(owner, item.key, item.data)]
  }

  lemma UpsertRowIsValid<O, K, D>(t: map<nat, Row<O, K, D>>, owner: O, item: Item<K, D>, next: nat)
    requires Valid(t, next)
    ensures Valid(UpsertRow(t, owner, item, next), next + 1)
  {
    var id := TargetId(t, owner, item, next);
    forall i | i in t && i != id && t[i].owner == owner && t[i].key == item.key ensures item.key.None? {
      if item.key.Some? {
        assert Has(t, owner, item.key.value, i);
        FindIs(t, next, owner, item.key.value, i);
      }
    }
  }

  lemma UpsertRowFind<O, K, D>(t: map<nat, Row<O, K, D>>, owner: O, item: Item<K, D>, next: nat, o: O, key: K)
    requires Valid(t, next)
    ensures Find(UpsertRow(t, owner, item, next), o, Some(key)) ==
            if o == owner && item.key == Some(key) then Some(TargetId(t, owner, item, next)) else Find(t, o, Some(key))
  {
    var id := TargetId(t, owner, item, next);
    var u := UpsertRow(t, owner, item, next);
    UpsertRowIsValid(t, owner, item, next);
    if o == owner && item.key == Some(key) {
      FindIs(u, next + 1, o, key, id);
    } else if Find(t, o, Some(key)).Some? {
      FindIs(u, next + 1, o, key, Find(t, o, Some(key)).value);
    } else if Find(u, o, Some(key)).Some? {
      assert Has(t, o, key, Find(u, o, Some(key)).value);
    }
  }

  // ----- a loop of upserts

  datatype Upserts<O, K, D> = Upserts(table: map<nat, Row<O, K, D>>, next: nat, keep: seq<nat>)

  ghost function UpsertAll<O, K, D>(t: map<nat, Row<O, K, D>>, owner: O, items: seq<Item<K, D>>, next: nat): Upserts<O, K, D> {
    if items == [] then Upserts(t, next, []) else
    var u := UpsertAll(t, owner, items[..|items| - 1], next);
    var item := items[|items| - 1];
    Upserts(UpsertRow(u.table, owner, item, u.next), u.next + 1, u.keep + [TargetId(u.table, owner, item, u.next)])
  }

  /** The last item with a key, as a loop of upserts leaves it. */
  ghost function LastWins<K, D>(items: seq<Item<K, D>>, key: K): Option<D> {
    if items == [] then None
    else if items[|items| - 1].key == Some(key) then Some(items[|items| - 1].data)
    else LastWins(items[..|items| - 1], key)
  }

  lemma {:induction false} UpsertAllIsValid<O, K, D>(t: map<nat, Row<O, K, D>>, owner: O, items: seq<Item<K, D>>, next: nat)
    requires Valid(t, next)
    ensures var u := UpsertAll(t, owner, items, next); Valid(u.table, u.next) && u.next >= next
    decreases |items|
  {
    if items != [] {
      UpsertAllIsValid(t, owner, items[..|items| - 1], next);
      var u := UpsertAll(t, owner, items[..|items| - 1], next);
      UpsertRowIsValid(u.table, owner, items[|items| - 1], u.next);
    }
  }

  /** Under each key: the last item, in the row that had the key if there was one. */
  lemma {:induction false} UpsertAllAt<O, K, D>(t: map<nat, Row<O, K, D>>, owner: O, items: seq<Item<K, D>>, next: nat, o: O, key: K)
    requires Valid(t, next)
    ensures var u := UpsertAll(t, owner, items, next);
            && (o != owner || LastWins(items, key).None? ==>
                  Find(u.table, o, Some(key)) == Find(t, o, Some(key)) && At(u.table, o, key) == At(t, o, key))
            && (LastWins(items, key).Some? ==> At(u.table, owner, key) == LastWins(items, key))
            && (Find(t, o, Some(key)).Some? ==> Find(u.table, o, Some(key)) == Find(t, o, Some(key)))
    decreases |items|
  {
    if items != [] {
      var init, item := items[..|items| - 1], items[|items| - 1];
      var u := UpsertAll(t, owner, init, next);
      UpsertAllAt(t, owner, init, next, o, key);
      UpsertAllIsValid(t, owner, init, next);
      UpsertRowFind(u.table, owner, item, u.next, o, key);
      UpsertRowFind(u.table, owner, item, u.next, owner, key);
      if item.key != Some(key) && Find(u.table, owner, Some(key)).Some? {
        assert Find(u.table, owner, Some(key)).value != TargetId(u.table, owner, item, u.next);
      }
      if (o != owner || item.key != Some(key)) && Find(u.table, o, Some(key)).Some? {
        assert Find(u.table, o, Some(key)).value != TargetId(u.table, owner, item, u.next);
      }
    }
  }

  /** Other owners' rows are untouched, and this owner's rows with no item stay as they are. */
  lemma {:induction false} UpsertAllElsewhere<O, K, D>(t: map<nat, Row<O, K, D>>, owner: O, items: seq<Item<K, D>>, next: nat, i: nat)
    requires Valid(t, next)
    ensures var u := UpsertAll(t, owner, items, next);
            && (i in t && i !in u.keep ==> i in u.table && u.table[i] == t[i])
            && (i in u.table && i !in u.keep ==> i in t)
            && (i in u.keep ==> i in u.table && u.table[i].owner == owner)
            && (i in u.keep && i in t ==> t[i].owner == owner && t[i].key == u.table[i].key && t[i].key.Some?)
            && (i in u.keep && i !in t ==> i >= next)
    decreases |items|
  {
    if items != [] {
      var init, item := items[..|items| - 1], items[|items| - 1];
      var u := UpsertAll(t, owner, init, next);
      UpsertAllElsewhere(t, owner, init, next, i);
      UpsertAllIsValid(t, owner, init, next);
    }
  }

  /** The remembered rows are those of the items. */
  lemma {:induction false} KeepsItems<O, K, D>(t: map<nat, Row<O, K, D>>, owner: O, items: seq<Item<K, D>>, next: nat, key: K)
    requires Valid(t, next)
    ensures var u := UpsertAll(t, owner, items, next);
            var found := Find(u.table, owner, Some(key));
            LastWins(items, key).Some? <==> found.Some? && found.value in u.keep
    decreases |items|
  {
    if items != [] {
      var init, item := items[..|items| - 1], items[|items| - 1];
      var u := UpsertAll(t, owner, init, next);
      KeepsItems(t, owner, init, next, key);
      UpsertAllIsValid(t, owner, init, next);
      UpsertRowFind(u.table, owner, item, u.next, owner, key);
      if item.key != Some(key) && Find(u.table, owner, Some(key)).Some? {
        assert Find(u.table, owner, Some(key)).value != TargetId(u.table, owner, item, u.next);
      }
    }
  }

  // ----- replacement

  function DeleteStale<O(==), K, D>(t: map<nat, Row<O, K, D>>, owner: O, keep: seq<nat>): map<nat, Row<O, K, D>> {
    map i | i in t && (t[i].owner != owner || i in keep) :: t[i]
  }

  ghost function Replace<O, K, D>(t: map<nat, Row<O, K, D>>, owner: O, items: seq<Item<K, D>>, next: nat): map<nat, Row<O, K, D>> {
    var u := UpsertAll(t, owner, items, next);
    DeleteStale(u.table, owner, u.keep)
  }

  lemma DeleteStaleFind<O, K, D>(t: map<nat, Row<O, K, D>>, next: nat, owner: O, keep: seq<nat>, o: O, key: K)
    requires Valid(t, next)
    ensures Valid(DeleteStale(t, owner, keep), next)
    ensures var found := Find(t, o, Some(key));
            Find(DeleteStale(t, owner, keep), o, Some(key)) ==
            if o == owner && found.Some? && found.value !in keep then None else found
  {
    var r := DeleteStale(t, owner, keep);
    var found := Find(t, o, Some(key));
    if found.Some? && (o != owner || found.value in keep) {
      FindIs(r, next, o, key, found.value);
    } else if Find(r, o, Some(key)).Some? {
      FindIs(t, next, o, key, Find(r, o, Some(key)).value);
    }
  }

  /** Afterwards the owner's keyed rows are exactly the last-wins map of the items; a key that was there
      keeps its row ID; under other owners nothing changes; and the table stays valid. */
  lemma ReplaceIsLastWins<O, K, D>(t: map<nat, Row<O, K, D>>, owner: O, items: seq<Item<K, D>>, next: nat, o: O, key: K)
    requires Valid(t, next)
    ensures var r := Replace(t, owner, items, next);
            && Valid(r, UpsertAll(t, owner, items, next).next)
            && At(r, owner, key) == LastWins(items, key)
            && (LastWins(items, key).Some? && Find(t, owner, Some(key)).Some? ==> Find(r, owner, Some(key)) == Find(t, owner, Some(key)))
            && (o != owner ==> Find(r, o, Some(key)) == Find(t, o, Some(key)) && At(r, o, key) == At(t, o, key))
  {
    var u := UpsertAll(t, owner, items, next);
    UpsertAllIsValid(t, owner, items, next);
    UpsertAllAt(t, owner, items, next, owner, key);
    UpsertAllAt(t, owner, items, next, o, key);
    KeepsItems(t, owner, items, next, key);
    DeleteStaleFind(u.table, u.next, owner, u.keep, owner, key);
    DeleteStaleFind(u.table, u.next, owner, u.keep, o, key);
  }

  /** Row by row: other owners' rows are the same rows; this owner's unkeyed rows are all fresh. */
  lemma ReplaceElsewhere<O, K, D>(t: map<nat, Row<O, K, D>>, owner: O, items: seq<Item<K, D>>, next: nat, i: nat)
    requires Valid(t, next)
    ensures var r := Replace(t, owner, items, next);
            && (i in t && t[i].owner != owner ==> i in r && r[i] == t[i])
            && (i in r && r[i].owner != owner ==> i in t && t[i] == r[i])
            && (i in r && r[i].owner == owner && r[i].key.None? ==> i >= next)
            && (i in r && i !in t ==> i >= next)
  {
    UpsertAllElsewhere(t, owner, items, next, i);
  }

  /** The owner's keyed rows already are the last-wins map of the items, and there are no others. */
  ghost predicate Current<O, K(!new), D>(t: map<nat, Row<O, K, D>>, owner: O, items: seq<Item<K, D>>) {
    && (forall i | i in t && t[i].owner == owner :: t[i].key.Some?)
    && (forall j | 0 <= j < |items| :: items[j].key.Some?)
    && (forall key :: At(t, owner, key) == LastWins(items, key))
  }

  /** Replacing makes the items current. */
  lemma ReplaceMakesCurrent<O, K(!new), D>(t: map<nat, Row<O, K, D>>, owner: O, items: seq<Item<K, D>>, next: nat)
    requires Valid(t, next) && forall j | 0 <= j < |items| :: items[j].key.Some?
    ensures Current(Replace(t, owner, items, next), owner, items)
  {
    var r := Replace(t, owner, items, next);
    forall key ensures At(r, owner, key) == LastWins(items, key) {
      ReplaceIsLastWins(t, owner, items, next, owner, key);
    }
    forall i | i in r && r[i].owner == owner ensures r[i].key.Some? {
      KeptHaveKeys(t, owner, items, next, i);
    }
  }

  lemma {:induction false} KeptHaveKeys<O, K, D>(t: map<nat, Row<O, K, D>>, owner: O, items: seq<Item<K, D>>, next: nat, i: nat)
    requires Valid(t, next) && forall j | 0 <= j < |items| :: items[j].key.Some?
    ensures var u := UpsertAll(t, owner, items, next); i in u.keep ==> i in u.table && u.table[i].key.Some?
    decreases |items|
  {
    if items != [] {
      KeptHaveKeys(t, owner, items[..|items| - 1], next, i);
    }
  }

  /** Replacing by what is current changes no row and no ID. */
  lemma ReplaceCurrent<O, K(!new), D>(t: map<nat, Row<O, K, D>>, owner: O, items: seq<Item<K, D>>, next: nat)
    requires Valid(t, next) && Current(t, owner, items)
    ensures Replace(t, owner, items, next) == t
  {
    var r := Replace(t, owner, items, next);
    ReplaceMakesCurrent(t, owner, items, next);
    forall i ensures (i in t <==> i in r) && (i in t ==> r[i] == t[i]) {
      ReplaceCurrentRow(t, owner, items, next, i);
    }
  }

  lemma ReplaceCurrentRow<O, K(!new), D>(t: map<nat, Row<O, K, D>>, owner: O, items: seq<Item<K, D>>, next: nat, i: nat)
    requires Valid(t, next) && Current(t, owner, items) && Current(Replace(t, owner, items, next), owner, items)
    ensures var r := Replace(t, owner, items, next); (i in t <==> i in r) && (i in t ==> r[i] == t[i])
  {
    var r := Replace(t, owner, items, next);
    var after := UpsertAll(t, owner, items, next).next;
    ReplaceElsewhere(t, owner, items, next, i);
    if i in t && t[i].owner == owner {
      var key := t[i].key.value;
      FindIs(t, next, owner, key, i);
      ReplaceIsLastWins(t, owner, items, next, owner, key);
    } else if i in r && r[i].owner == owner {
      var key := r[i].key.value;
      ReplaceIsLastWins(t, owner, items, next, owner, key);
      FindIs(r, after, owner, key, i);
    }
  }

  // ----- rows and items

  lemma {:induction false} LastItemWins<K, D>(items: seq<Item<K, D>>, k: nat)
    requires k < |items| && items[k].key.Some? && forall j | k < j < |items| :: items[j].key != items[k].key
    ensures LastWins(items, items[k].key.value) == Some(items[k].data)
    decreases |items|
  {
    if k < |items| - 1 {
      LastItemWins(items[..|items| - 1], k);
    }
  }

  lemma {:induction false} WinnerIsAnItem<K, D>(items: seq<Item<K, D>>, key: K)
    requires LastWins(items, key).Some?
    ensures exists k :: 0 <= k < |items| && items[k].key == Some(key)
    decreases |items|
  {
    if items[|items| - 1].key != Some(key) {
      WinnerIsAnItem(items[..|items| - 1], key);
      var k :| 0 <= k < |items| - 1 && items[..|items| - 1][k].key == Some(key);
      assert items[k].key == Some(key);
    }
  }

  /** Every remembered row says what one of the items says. */
  lemma {:induction false} KeptIsAnItem<O, K, D>(t: map<nat, Row<O, K, D>>, owner: O, items: seq<Item<K, D>>, next: nat, i: nat)
    requires Valid(t, next)
    ensures var u := UpsertAll(t, owner, items, next);
            i in u.keep ==> i in u.table && exists k :: 0 <= k < |items| && u.table[i] == Row(owner, items[k].key, items[k].data)
    decreases |items|
  {
    if items != [] {
      var init, item := items[..|items| - 1], items[|items| - 1];
      var u := UpsertAll(t, owner, init, next);
      KeptIsAnItem(t, owner, init, next, i);
      UpsertAllIsValid(t, owner, init, next);
      if i == TargetId(u.table, owner, item, u.next) {
        assert UpsertAll(t, owner, items, next).table[i] == Row(owner, items[|items| - 1].key, items[|items| - 1].data);
      } else if i in u.keep {
        var k :| 0 <= k < |init| && u.table[i] == Row(owner, init[k].key, init[k].data);
        assert UpsertAll(t, owner, items, next).table[i] == Row(owner, items[k].key, items[k].data);
      }
    }
  }

  /** An item without a key has a row of its own. */
  lemma {:induction false} UnkeyedIsKept<O, K, D>(t: map<nat, Row<O, K, D>>, owner: O, items: seq<Item<K, D>>, next: nat, k: nat)
    returns (i: nat)
    requires Valid(t, next) && k < |items| && items[k].key.None?
    ensures var u := UpsertAll(t, owner, items, next); i in u.keep && i in u.table && u.table[i] == Row(owner, None, items[k].data)
    decreases |items|
  {
    var init, item := items[..|items| - 1], items[|items| - 1];
    var u := UpsertAll(t, owner, init, next);
    UpsertAllIsValid(t, owner, init, next);
    if k == |items| - 1 {
      i := TargetId(u.table, owner, item, u.next);
    } else {
      i := UnkeyedIsKept(t, owner, init, next, k);
      assert i != TargetId(u.table, owner, item, u.next);
    }
  }

  // ----- as statements of a transaction

  /** One upsert statement and the ID it returns. */
  method Upsert<O(==), K(==), D>(t: map<nat, Row<O, K, D>>, owner: O, item: Item<K, D>, next: nat)
    returns (u: map<nat, Row<O, K, D>>, id: nat)
    requires Valid(t, next)
    ensures u == UpsertRow(t, owner, item, next) && id == TargetId(t, owner, item, next)
  {
    id := next;
    if item.key.Some? && exists i :: i in t && t[i].owner == owner && t[i].key == item.key {
      id :| id in t && t[id].owner == owner && t[id].key == item.key;
      FindIs(t, next, owner, item.key.value, id);
    }
    u := t[id := Row(owner, item.key, item.data)];
  }

  /** A loop of upserts, which stops where a statement fails: after `failing` statements, if that is not
      negative. */
  method UpsertLoop<O(==), K(==), D>(t: map<nat, Row<O, K, D>>, owner: O, items: seq<Item<K, D>>, next: nat, failing: int)
    returns (result: Option<Upserts<O, K, D>>)
    requires Valid(t, next)
    ensures result == if 0 <= failing < |items| then None else Some(UpsertAll(t, owner, items, next))
  {
    var table, unused, keep := t, next, [];
    for i := 0 to |items|
      invariant Valid(table, unused) && !(0 <= failing < i)
      invariant UpsertAll(t, owner, items[..i], next) == Upserts(table, unused, keep)
    {
      if i == failing {
        return None;
      }
      ghost var before := table;
      var id;
      table, id := Upsert(table, owner, items[i], unused);
      UpsertRowIsValid(before, owner, items[i], unused);
      assert items[..i + 1][..i] == items[..i];
      unused, keep := unused + 1, keep + [id];
    }
    assert items[..|items|] == items;
    result := Some(Upserts(table, unused, keep));
  }
}
