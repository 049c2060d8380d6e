/**
 * The item admin page: the reconciliation of an item's stat records with a submitted list of
 * (stat kind, amount) pairs, and the create and edit handlers that call it.
 *
 * Records live in arenas as in the NPC model: `stats` holds every `ItemInfoStat` ever created
 * keyed by its index, and `statList` stands for the `ItemInfoStatList` binding list that
 * `Delete()` takes a record out of. An item's `ItemStats` list is a sequence of stat indices.
 */
module ItemAdmin {
  import opened Common
  import opened Access

  /** One entry of the submitted stat list: a `Stat` kind as its integer value, and an amount. */
  datatype StatInput = StatInput(statType: int, amount: int)

  /** An `ItemInfoStat`: its stat kind, its amount and the index of the item it belongs to. */
  datatype StatRec = StatRec(stat: int, amount: int, item: int)

  /** The enum and integer fields of an `ItemInfo` that the handlers copy from the request as given. */
  datatype Attributes = Attributes(
    itemType: int, requiredClass: int, requiredGender: int, requiredType: int, requiredAmount: int,
    shape: int, effect: int, image: int, durability: int, price: int, weight: int, rarity: int)

  /** An `ItemInfo`; `itemStats` is its `ItemStats` list, `None` when that list is null. */
  datatype ItemRec = ItemRec(itemName: Option<string>, attributes: Attributes, stackSize: int,
                             itemStats: Option<seq<int>>)

  /** Every field of the item admin world at one moment. */
  datatype Catalogue = Catalogue(
    items: map<int, ItemRec>, itemList: set<int>, stats: map<int, StatRec>, statList: set<int>,
    nextItem: int, nextStat: int, recomputed: seq<int>)

  // ---------------------------------------------------------------------------------------
  // The desired stats

  /**
   * The `newStats` dictionary the first loop of `UpdateItemStats` builds: an input with a
   * non-zero amount sets its kind's entry and an input with a zero amount is skipped.
   */
  ghost function Desired(inputs: seq<StatInput>): (d: map<int, int>)
    ensures forall k | k in d :: d[k] != 0
  {
    if inputs == [] then map[]
    else
      var last := inputs[|inputs| - 1];
      var d0 := Desired(inputs[..|inputs| - 1]);
      if last.amount != 0 then d0[last.statType := last.amount] else d0
  }

  /**
   * The order in which `newStats` enumerates its kinds: a dictionary that has had no removal
   * enumerates its keys in the order they were first inserted.
   */
  ghost function KeyOrder(inputs: seq<StatInput>): (order: seq<int>)
    ensures Distinct(order)
    ensures forall k :: k in order <==> k in Desired(inputs)
  {
    if inputs == [] then []
    else
      var last := inputs[|inputs| - 1];
      var o := KeyOrder(inputs[..|inputs| - 1]);
      if last.amount != 0 && last.statType !in o then
        DistinctAppend(o, [last.statType]);
        o + [last.statType]
      else o
  }

  /** A kind is desired exactly when some input gives it a non-zero amount. */
  lemma {:induction false} DesiredKinds(inputs: seq<StatInput>, k: int)
    ensures k in Desired(inputs) <==>
            exists i | 0 <= i < |inputs| :: inputs[i].statType == k && inputs[i].amount != 0
  {
    if inputs != [] {
      var front := inputs[..|inputs| - 1];
      DesiredKinds(front, k);
      if k in Desired(front) {
        var i :| 0 <= i < |front| && front[i].statType == k && front[i].amount != 0;
        assert inputs[i] == front[i];
      }
      if exists i | 0 <= i < |inputs| :: inputs[i].statType == k && inputs[i].amount != 0 {
        var i :| 0 <= i < |inputs| && inputs[i].statType == k && inputs[i].amount != 0;
        if i < |front| {
          assert front[i] == inputs[i];
        }
      }
    }
  }

  /** The desired amount of a kind is the amount of the last input that gives that kind a non-zero amount. */
  lemma {:induction false} LastNonZeroWins(inputs: seq<StatInput>, i: int)
    requires 0 <= i < |inputs| && inputs[i].amount != 0
    requires forall j | i < j < |inputs| :: inputs[j].statType == inputs[i].statType ==> inputs[j].amount == 0
    ensures inputs[i].statType in Desired(inputs) && Desired(inputs)[inputs[i].statType] == inputs[i].amount
  {
    if i < |inputs| - 1 {
      var front := inputs[..|inputs| - 1];
      assert front[i] == inputs[i];
      LastNonZeroWins(front, i);
    }
  }

  /** An empty or all-zero input desires no kind at all. */
  lemma AllZeroDesiresNothing(inputs: seq<StatInput>)
    requires forall i | 0 <= i < |inputs| :: inputs[i].amount == 0
    ensures Desired(inputs) == map[]
  {
    forall k | k in Desired(inputs) ensures false {
      DesiredKinds(inputs, k);
    }
  }

  /** The first `foreach` of `UpdateItemStats`: fills `newStats`, whose key order is `order`. */
  method BuildDesired(inputs: seq<StatInput>) returns (order: seq<int>, newStats: map<int, int>)
    ensures newStats == Desired(inputs) && order == KeyOrder(inputs)
  {
    order, newStats := [], map[];
    for i := 0 to |inputs|
      invariant newStats == Desired(inputs[..i]) && order == KeyOrder(inputs[..i])
    {
      var input := inputs[i];
      assert inputs[..i + 1][..i] == inputs[..i];
      if input.amount != 0 {
        if input.statType !in newStats {
          order := order + [input.statType];
        }
        newStats := newStats[input.statType := input.amount];
      }
    }
    assert inputs[..|inputs|] == inputs;
  }

  // ---------------------------------------------------------------------------------------
  // Stat lists

  /** Every listed stat is a known record. */
  ghost predicate Known(stats: map<int, StatRec>, list: seq<int>)
  {
    forall i | 0 <= i < |list| :: list[i] in stats
  }

  /** Some listed stat has the kind. */
  ghost predicate HasKind(stats: map<int, StatRec>, list: seq<int>, kind: int)
    requires Known(stats, list)
  {
    exists i | 0 <= i < |list| :: stats[list[i]].stat == kind
  }

  /** No two listed stats have the same kind. */
  ghost predicate UniqueKinds(stats: map<int, StatRec>, list: seq<int>)
    requires Known(stats, list)
  {
    forall i, j | 0 <= i < j < |list| :: stats[list[i]].stat != stats[list[j]].stat
  }

  /** `ItemStats.FirstOrDefault(s => s.Stat == kind)`. */
  function FirstOfKind(stats: map<int, StatRec>, list: seq<int>, kind: int): (r: Option<int>)
    requires Known(stats, list)
    ensures r.Some? ==> r.value in list && stats[r.value].stat == kind
    ensures r.None? <==> forall i | 0 <= i < |list| :: stats[list[i]].stat != kind
  {
    if list == [] then None
    else if stats[list[0]].stat == kind then Some(list[0])
    else FirstOfKind(stats, list[1..], kind)
  }

  /** The stat `FirstOfKind` picks is the first listed stat of that kind: none before it has the kind. */
  lemma {:induction false} FirstOfKindIsFirst(stats: map<int, StatRec>, list: seq<int>, kind: int)
    requires Known(stats, list)
    ensures FirstOfKind(stats, list, kind).Some? ==>
              exists i | 0 <= i < |list| :: list[i] == FirstOfKind(stats, list, kind).value
                                           && forall j | 0 <= j < i :: stats[list[j]].stat != kind
  {
    if list != [] && stats[list[0]].stat != kind {
      var r := FirstOfKind(stats, list[1..], kind);
      FirstOfKindIsFirst(stats, list[1..], kind);
      if r.Some? {
        var i :| 0 <= i < |list[1..]| && list[1..][i] == r.value
                 && forall j | 0 <= j < i :: stats[list[1..][j]].stat != kind;
        assert list[i + 1] == r.value;
        assert forall j | 0 <= j < i + 1 :: stats[list[j]].stat != kind by {
          forall j | 0 <= j < i + 1 ensures stats[list[j]].stat != kind {
            if j > 0 {
              assert list[j] == list[1..][j - 1];
            }
          }
        }
      }
    } else if list != [] {
      assert list[0] == FirstOfKind(stats, list, kind).value;
    }
  }

  /** `ItemStats.Where(s => !newStats.ContainsKey(s.Stat)).ToList()`: the stats whose kind is not desired, in order. */
  function Stale(stats: map<int, StatRec>, list: seq<int>, desired: map<int, int>): (r: seq<int>)
    requires Known(stats, list)
    ensures forall e :: e in r <==> e in list && stats[e].stat !in desired
  {
    if list == [] then []
    else
      var e := list[|list| - 1];
      Stale(stats, list[..|list| - 1], desired) + (if stats[e].stat in desired then [] else [e])
  }

  /** The stats whose kind is desired, in their list order. */
  ghost function Kept(stats: map<int, StatRec>, list: seq<int>, desired: map<int, int>): (r: seq<int>)
    requires Known(stats, list)
    ensures forall e :: e in r <==> e in list && stats[e].stat in desired
  {
    if list == [] then []
    else (if stats[list[0]].stat in desired then [list[0]] else []) + Kept(stats, list[1..], desired)
  }

  /** The elements of a list, as a set. */
  ghost function Elements(list: seq<int>): (r: set<int>)
    ensures forall e :: e in r <==> e in list
  {
    if list == [] then {} else {list[0]} + Elements(list[1..])
  }

  /** One turn of the removal loop: one more stale stat is filtered out. */
  lemma RemoveStaleStep(list0: seq<int>, toRemove: seq<int>, j: int, gone: set<int>)
    requires 0 <= j < |toRemove| && gone == Elements(toRemove[..j]) && Distinct(FilterOut(list0, gone))
    ensures Elements(toRemove[..j + 1]) == gone + {toRemove[j]}
    ensures RemoveFirst(FilterOut(list0, gone), toRemove[j]) == FilterOut(list0, gone + {toRemove[j]})
    ensures Distinct(FilterOut(list0, gone + {toRemove[j]}))
  {
    RemoveOneMore(list0, gone, toRemove[j]);
    assert toRemove[..j + 1] == toRemove[..j] + [toRemove[j]];
    ElementsAppend(toRemove[..j], toRemove[j]);
  }

  /** Removing one more element from a filtered, repetition-free list filters out one more element. */
  lemma RemoveOneMore(list0: seq<int>, gone: set<int>, x: int)
    requires Distinct(FilterOut(list0, gone))
    ensures RemoveFirst(FilterOut(list0, gone), x) == FilterOut(list0, gone + {x})
    ensures Distinct(FilterOut(list0, gone + {x}))
  {
    RemoveFirstDistinct(FilterOut(list0, gone), x);
    FilterOutMore(list0, gone, x);
  }

  /** One more element in the list is one more element in the set. */
  lemma ElementsAppend(list: seq<int>, x: int)
    ensures Elements(list + [x]) == Elements(list) + {x}
  {
  }

  /** Filtering out nothing keeps the whole list. */
  lemma {:induction false} FilterOutNothing(list: seq<int>)
    ensures FilterOut(list, {}) == list
  {
    if list != [] {
      FilterOutNothing(list[1..]);
    }
  }

  /** The elements of `list` outside `gone`, in order. */
  ghost function FilterOut(list: seq<int>, gone: set<int>): (r: seq<int>)
    ensures forall e :: e in r <==> e in list && e !in gone
  {
    if list == [] then []
    else (if list[0] in gone then [] else [list[0]]) + FilterOut(list[1..], gone)
  }

  /** The desired kinds, in enumeration order, that no listed stat has: each gets a new record. */
  ghost function Missing(stats: map<int, StatRec>, list: seq<int>, order: seq<int>): (r: seq<int>)
    requires Known(stats, list)
    ensures forall k :: k in r <==> k in order && !HasKind(stats, list, k)
    ensures forall i | 0 <= i < |r| :: r[i] in order
    ensures Distinct(order) ==> Distinct(r)
  {
    if order == [] then []
    else
      var k := order[|order| - 1];
      var front := order[..|order| - 1];
      var m := Missing(stats, list, front);
      assert forall j | j in front :: j in order;
      if HasKind(stats, list, k) then m
      else
        assert Distinct(order) ==> k !in front && Distinct(front);
        if Distinct(order) then (DistinctAppend(m, [k]); m + [k]) else m + [k]
  }

  /** The consecutive indices `lo`, ..., `hi - 1`. */
  ghost function Range(lo: int, hi: int): (r: seq<int>)
    requires lo <= hi
    ensures |r| == hi - lo && forall i | 0 <= i < |r| :: r[i] == lo + i
    decreases hi - lo
  {
    if lo == hi then [] else Range(lo, hi - 1) + [hi - 1]
  }

  /** The indices `lo`, ..., `hi - 1` as a set. */
  ghost function Span(lo: int, hi: int): (r: set<int>)
    ensures forall t :: t in r <==> lo <= t < hi
    decreases hi - lo
  {
    if lo >= hi then {} else Span(lo, hi - 1) + {hi - 1}
  }

  /** Appending two lists of known stats gives a list of known stats. */
  lemma KnownAppend(stats: map<int, StatRec>, a: seq<int>, b: seq<int>)
    requires Known(stats, a) && Known(stats, b)
    ensures Known(stats, a + b)
  {
    forall i | 0 <= i < |a + b| ensures (a + b)[i] in stats {
      if i >= |a| {
        assert (a + b)[i] == b[i - |a|];
      }
    }
  }

  /**
   * A stat after the kinds in `done` have been upserted: the first stat of a done, desired kind
   * carries the desired amount; every other stat is as it was.
   */
  ghost function Refreshed(stats: map<int, StatRec>, list: seq<int>, desired: map<int, int>, done: seq<int>, e: int): StatRec
    requires Known(stats, list) && e in stats
  {
    var r := stats[e];
    if r.stat in done && r.stat in desired && FirstOfKind(stats, list, r.stat) == Some(e)
    then r.(amount := desired[r.stat])
    else r
  }

  lemma {:induction false} KeptDistinct(stats: map<int, StatRec>, list: seq<int>, desired: map<int, int>)
    requires Known(stats, list) && Distinct(list)
    ensures Distinct(Kept(stats, list, desired))
  {
    if list != [] {
      KeptDistinct(stats, list[1..], desired);
      var rest := Kept(stats, list[1..], desired);
      if stats[list[0]].stat in desired {
        DistinctAppend([list[0]], rest);
      }
    }
  }

  /** Removing the stale stats one by one leaves exactly the kept ones, in order. */
  lemma {:induction false} FilterOutStale(stats: map<int, StatRec>, list: seq<int>, desired: map<int, int>, gone: set<int>)
    requires Known(stats, list)
    requires forall i | 0 <= i < |list| :: list[i] in gone <==> stats[list[i]].stat !in desired
    ensures FilterOut(list, gone) == Kept(stats, list, desired)
  {
    if list != [] {
      FilterOutStale(stats, list[1..], desired, gone);
    }
  }

  /** Taking one more element out of a filtered list is filtering with one more element. */
  lemma {:induction false} FilterOutMore(list: seq<int>, gone: set<int>, x: int)
    ensures Without(FilterOut(list, gone), x) == FilterOut(list, gone + {x})
  {
    if list != [] {
      var y := list[0];
      var f := FilterOut(list[1..], gone);
      FilterOutMore(list[1..], gone, x);
      if y in gone {
        assert FilterOut(list, gone) == f;
        assert FilterOut(list, gone + {x}) == FilterOut(list[1..], gone + {x});
      } else if y == x {
        assert FilterOut(list, gone) == [y] + f;
        assert ([y] + f)[1..] == f;
        assert FilterOut(list, gone + {x}) == FilterOut(list[1..], gone + {x});
      } else {
        assert FilterOut(list, gone) == [y] + f;
        assert ([y] + f)[1..] == f;
        assert FilterOut(list, gone + {x}) == [y] + FilterOut(list[1..], gone + {x});
      }
    }
  }

  lemma {:induction false} FilterOutDistinct(list: seq<int>, gone: set<int>)
    requires Distinct(list)
    ensures Distinct(FilterOut(list, gone))
  {
    if list != [] {
      FilterOutDistinct(list[1..], gone);
      if list[0] !in gone {
        DistinctAppend([list[0]], FilterOut(list[1..], gone));
      }
    }
  }

  /**
   * After the stale stats are gone and new records of other kinds are appended, the first
   * stat of a desired kind is the one it was in the original list.
   */
  lemma {:induction false} FirstOfKindKept(stats0: map<int, StatRec>, list: seq<int>, desired: map<int, int>,
                                           stats: map<int, StatRec>, added: seq<int>, kind: int)
    requires Known(stats0, list) && kind in desired
    requires forall i | 0 <= i < |list| :: list[i] in stats && stats[list[i]].stat == stats0[list[i]].stat
    requires forall i | 0 <= i < |added| :: added[i] in stats && stats[added[i]].stat != kind
    ensures Known(stats, Kept(stats0, list, desired) + added)
    ensures FirstOfKind(stats, Kept(stats0, list, desired) + added, kind) == FirstOfKind(stats0, list, kind)
  {
    var kept := Kept(stats0, list, desired);
    KeptKinds(stats0, list, desired, stats, kind);
    KnownAppend(stats, kept, added);
    FirstOfKindAppend(stats, kept, added, kind);
  }

  /** The kept stats are known wherever the original ones are. */
  lemma KeptKnown(stats0: map<int, StatRec>, list: seq<int>, desired: map<int, int>, stats: map<int, StatRec>)
    requires Known(stats0, list) && forall i | 0 <= i < |list| :: list[i] in stats
    ensures Known(stats, Kept(stats0, list, desired))
  {
    var kept := Kept(stats0, list, desired);
    forall i | 0 <= i < |kept| ensures kept[i] in stats {
      assert kept[i] in kept;
    }
  }

  /** Dropping the stats of undesired kinds does not change which stat comes first among those of a desired kind. */
  lemma {:induction false} KeptKinds(stats0: map<int, StatRec>, list: seq<int>, desired: map<int, int>,
                                     stats: map<int, StatRec>, kind: int)
    requires Known(stats0, list) && kind in desired
    requires forall i | 0 <= i < |list| :: list[i] in stats && stats[list[i]].stat == stats0[list[i]].stat
    ensures Known(stats, Kept(stats0, list, desired))
    ensures FirstOfKind(stats, Kept(stats0, list, desired), kind) == FirstOfKind(stats0, list, kind)
  {
    KeptKnown(stats0, list, desired, stats);
    if list != [] {
      var x := list[0];
      var rest := Kept(stats0, list[1..], desired);
      KeptKinds(stats0, list[1..], desired, stats, kind);
      if stats0[x].stat in desired {
        assert Kept(stats0, list, desired) == [x] + rest;
        assert ([x] + rest)[1..] == rest;
        assert FirstOfKind(stats, [x] + rest, kind) == if stats[x].stat == kind then Some(x) else FirstOfKind(stats, rest, kind);
      } else {
        assert Kept(stats0, list, desired) == rest;
      }
    }
  }

  /** The first stat of a kind in a joined list is the first one in the front part, if there is one there. */
  lemma {:induction false} FirstOfKindAppend(stats: map<int, StatRec>, a: seq<int>, b: seq<int>, kind: int)
    requires Known(stats, a) && Known(stats, b) && Known(stats, a + b)
    ensures FirstOfKind(stats, a + b, kind)
            == if FirstOfKind(stats, a, kind).Some? then FirstOfKind(stats, a, kind) else FirstOfKind(stats, b, kind)
  {
    if a == [] {
      assert a + b == b;
    } else {
      assert (a + b)[0] == a[0] && (a + b)[1..] == a[1..] + b;
      FirstOfKindAppend(stats, a[1..], b, kind);
    }
  }

  // ---------------------------------------------------------------------------------------
  // What a reconciliation leaves behind

  /**
   * The stats after `UpdateItemStats` reconciled the list `l0` of an item with `desired`: the
   * kept stats in their order followed by one added record per missing kind, in enumeration order,
   * with the added indices allocated from `next0`; the first stat of each desired kind carries
   * the desired amount and every other record is untouched.
   */
  ghost predicate Reconciled(stats0: map<int, StatRec>, l0: seq<int>, next0: int,
                             stats1: map<int, StatRec>, l1: seq<int>, next1: int,
                             item: int, desired: map<int, int>, order: seq<int>)
    requires Known(stats0, l0)
  {
    var added := Missing(stats0, l0, order);
    && next1 == next0 + |added|
    && l1 == Kept(stats0, l0, desired) + Range(next0, next1)
    && stats1.Keys == stats0.Keys + Span(next0, next1)
    && AddedRecords(stats1, next0, added, desired, item)
    && RefreshedRecords(stats0, l0, stats1, desired, order)
  }

  /** The records at `next0`, `next0 + 1`, ... are new stats of the item, one per kind of `added`, with the desired amounts. */
  ghost predicate AddedRecords(stats1: map<int, StatRec>, next0: int, added: seq<int>, desired: map<int, int>, item: int)
  {
    forall t | 0 <= t < |added| ::
      added[t] in desired && next0 + t in stats1 && stats1[next0 + t] == StatRec(added[t], desired[added[t]], item)
  }

  /** Every record that existed before is still there, refreshed for the kinds in `order`. */
  ghost predicate RefreshedRecords(stats0: map<int, StatRec>, l0: seq<int>, stats1: map<int, StatRec>,
                                   desired: map<int, int>, order: seq<int>)
    requires Known(stats0, l0)
  {
    forall e | e in stats0 :: e in stats1 && stats1[e] == Refreshed(stats0, l0, desired, order, e)
  }

  /** Every item index lies below the item counter and every stat index below the stat counter; item stat lists are repetition-free lists of known stats. */
  ghost predicate Sound(w: Catalogue)
  {
    && (forall i | i in w.itemList :: i in w.items)
    && (forall i | i in w.items :: i < w.nextItem)
    && (forall e | e in w.stats :: e < w.nextStat)
    && (forall i | i in w.items && w.items[i].itemStats.Some? ::
          Distinct(w.items[i].itemStats.value) && Known(w.stats, w.items[i].itemStats.value))
  }

  /**
   * What `UpdateItemStats(item, …)` does, given the deserialized stat list (`None` when the
   * JSON was `null` or malformed): nothing when the item's stat list is null or nothing was
   * parsed; otherwise the item's list is reconciled with the desired stats, the stale records
   * are deleted, and `StatsChanged` runs once, on that item. No other item changes.
   */
  ghost predicate StatsUpdated(w0: Catalogue, w1: Catalogue, item: int, parsed: Option<seq<StatInput>>)
  {
    && Sound(w0) && item in w0.items
    && if w0.items[item].itemStats.None? || parsed.None? then w1 == w0
       else
         var l0 := w0.items[item].itemStats.value;
         var desired := Desired(parsed.value);
         && item in w1.items && w1.items[item].itemStats.Some?
         && w1.items == w0.items[item := w0.items[item].(itemStats := w1.items[item].itemStats)]
         && Reconciled(w0.stats, l0, w0.nextStat, w1.stats, w1.items[item].itemStats.value, w1.nextStat,
                       item, desired, KeyOrder(parsed.value))
         && w1.statList == w0.statList - Elements(Stale(w0.stats, l0, desired))
                                       + Span(w0.nextStat, w1.nextStat)
         && w1.recomputed == w0.recomputed + [item]
         && w1.itemList == w0.itemList && w1.nextItem == w0.nextItem
  }

  /** A reconciliation keeps every record index below its counter and every stat list repetition-free and known. */
  lemma ReconciledSound(w0: Catalogue, w1: Catalogue, item: int, parsed: Option<seq<StatInput>>)
    requires StatsUpdated(w0, w1, item, parsed)
    ensures Sound(w1)
  {
    if w0.items[item].itemStats.Some? && parsed.Some? {
      var l0 := w0.items[item].itemStats.value;
      var l1 := w1.items[item].itemStats.value;
      var desired := Desired(parsed.value);
      ReconciledFacts(w0.stats, l0, w0.nextStat, w1.stats, l1, w1.nextStat, item, desired, KeyOrder(parsed.value));
      var kept := Kept(w0.stats, l0, desired);
      var range := Range(w0.nextStat, w1.nextStat);
      KeptDistinct(w0.stats, l0, desired);
      forall x | x in kept ensures x !in range {
        var i :| 0 <= i < |l0| && l0[i] == x;
      }
      DistinctAppend(kept, range);
      forall i | i in w1.items && w1.items[i].itemStats.Some?
        ensures Distinct(w1.items[i].itemStats.value) && Known(w1.stats, w1.items[i].itemStats.value)
      {
        if i != item {
          var l := w0.items[i].itemStats.value;
          forall p | 0 <= p < |l| ensures l[p] in w1.stats {
            assert l[p] in w0.stats;
          }
        }
      }
      forall e | e in w1.stats ensures e < w1.nextStat {
        if e !in w0.stats {
          assert e in Span(w0.nextStat, w1.nextStat);
        }
      }
    }
  }

  /** The facts about a reconciled list that the lemmas below share, stated position by position. */
  lemma ReconciledFacts(stats0: map<int, StatRec>, l0: seq<int>, next0: int,
                        stats1: map<int, StatRec>, l1: seq<int>, next1: int,
                        item: int, desired: map<int, int>, order: seq<int>)
    requires Known(stats0, l0) && (forall e | e in stats0 :: e < next0)
    requires forall k :: k in order <==> k in desired
    requires Reconciled(stats0, l0, next0, stats1, l1, next1, item, desired, order)
    ensures forall i | 0 <= i < |l0| :: l0[i] in stats1 && stats1[l0[i]].stat == stats0[l0[i]].stat
    ensures forall i | 0 <= i < |l0| && stats0[l0[i]].stat in desired
                                     && FirstOfKind(stats0, l0, stats0[l0[i]].stat) == Some(l0[i]) ::
              stats1[l0[i]].amount == desired[stats0[l0[i]].stat]
    ensures var added := Missing(stats0, l0, order);
            forall t | 0 <= t < |added| :: next0 + t in stats1 && stats1[next0 + t].stat == added[t]
                                           && stats1[next0 + t].item == item
                                           && stats1[next0 + t].amount == desired[added[t]]
    ensures Known(stats1, l1)
  {
    var kept := Kept(stats0, l0, desired);
    var range := Range(next0, next1);
    var added := Missing(stats0, l0, order);
    forall i | 0 <= i < |l0|
      ensures l0[i] in stats1 && stats1[l0[i]] == Refreshed(stats0, l0, desired, order, l0[i])
    {
    }
    forall t | 0 <= t < |added|
      ensures next0 + t in stats1 && stats1[next0 + t] == StatRec(added[t], desired[added[t]], item)
    {
      assert next0 + t in Span(next0, next1);
    }
    KeptKnown(stats0, l0, desired, stats1);
    assert Known(stats1, range) by {
      forall t | 0 <= t < |range| ensures range[t] in stats1 {
        assert range[t] in Span(next0, next1);
      }
    }
    KnownAppend(stats1, kept, range);
  }

  /** The reconciled list holds exactly the desired kinds. */
  lemma ReconciledKinds(stats0: map<int, StatRec>, l0: seq<int>, next0: int,
                        stats1: map<int, StatRec>, l1: seq<int>, next1: int,
                        item: int, desired: map<int, int>, order: seq<int>)
    requires Known(stats0, l0) && (forall e | e in stats0 :: e < next0)
    requires forall k :: k in order <==> k in desired
    requires Reconciled(stats0, l0, next0, stats1, l1, next1, item, desired, order)
    ensures Known(stats1, l1) && forall k :: HasKind(stats1, l1, k) <==> k in desired
  {
    ReconciledFacts(stats0, l0, next0, stats1, l1, next1, item, desired, order);
    var added := Missing(stats0, l0, order);
    ListKinds(stats0, l0, desired, stats1, l1, next0, next1, added);
  }

  lemma ListKinds(stats0: map<int, StatRec>, l0: seq<int>, desired: map<int, int>,
                  stats1: map<int, StatRec>, l1: seq<int>, next0: int, next1: int, added: seq<int>)
    requires Known(stats0, l0) && Known(stats1, l1)
    requires next0 <= next1 && |added| == next1 - next0
    requires l1 == Kept(stats0, l0, desired) + Range(next0, next1)
    requires forall i | 0 <= i < |l0| :: l0[i] in stats1 && stats1[l0[i]].stat == stats0[l0[i]].stat
    requires forall t | 0 <= t < |added| :: next0 + t in stats1 && stats1[next0 + t].stat == added[t]
    requires forall t | 0 <= t < |added| :: added[t] in desired
    requires forall k | k in desired && !HasKind(stats0, l0, k) :: k in added
    ensures forall k :: HasKind(stats1, l1, k) <==> k in desired
  {
    var kept := Kept(stats0, l0, desired);
    var n := |kept|;
    forall k | k in desired ensures HasKind(stats1, l1, k) {
      if HasKind(stats0, l0, k) {
        var i :| 0 <= i < |l0| && stats0[l0[i]].stat == k;
        assert l0[i] in kept;
        var p :| 0 <= p < n && kept[p] == l0[i];
        assert l1[p] == l0[i] && stats1[l1[p]].stat == k;
      } else {
        var t :| 0 <= t < |added| && added[t] == k;
        assert l1[n + t] == next0 + t && stats1[l1[n + t]].stat == k;
      }
    }
    forall p | 0 <= p < |l1| ensures stats1[l1[p]].stat in desired {
      if p < n {
        var e := kept[p];
        assert l1[p] == e && e in kept;
        assert e in l0 && stats0[e].stat in desired;
        var i :| 0 <= i < |l0| && l0[i] == e;
        assert stats1[e].stat == stats0[e].stat;
      } else {
        var t := p - n;
        assert l1[p] == next0 + t;
        assert stats1[next0 + t].stat == added[t];
      }
    }
    forall k | HasKind(stats1, l1, k) ensures k in desired {
      var p :| 0 <= p < |l1| && stats1[l1[p]].stat == k;
    }
  }

  /**
   * A stat of a desired kind stays in the list under the same index and kind; a stat of any
   * other kind leaves it; every stat the list did not hold before is a new record of the item.
   */
  lemma ReconciledIdentity(stats0: map<int, StatRec>, l0: seq<int>, next0: int,
                           stats1: map<int, StatRec>, l1: seq<int>, next1: int,
                           item: int, desired: map<int, int>, order: seq<int>)
    requires Known(stats0, l0) && (forall e | e in stats0 :: e < next0)
    requires forall k :: k in order <==> k in desired
    requires Reconciled(stats0, l0, next0, stats1, l1, next1, item, desired, order)
    ensures forall i | 0 <= i < |l0| && stats0[l0[i]].stat in desired ::
              l0[i] in l1 && l0[i] in stats1 && stats1[l0[i]].stat == stats0[l0[i]].stat
    ensures forall i | 0 <= i < |l0| && stats0[l0[i]].stat !in desired :: l0[i] !in l1
    ensures forall p | 0 <= p < |l1| && l1[p] !in l0 :: l1[p] !in stats0 && l1[p] in stats1 && stats1[l1[p]].item == item
  {
    ReconciledFacts(stats0, l0, next0, stats1, l1, next1, item, desired, order);
    var added := Missing(stats0, l0, order);
    var kept := Kept(stats0, l0, desired);
    var n := |kept|;
    forall i | 0 <= i < |l0| && stats0[l0[i]].stat in desired ensures l0[i] in l1 {
      assert l0[i] in kept;
      var p :| 0 <= p < n && kept[p] == l0[i];
      assert l1[p] == l0[i];
    }
    forall i | 0 <= i < |l0| && stats0[l0[i]].stat !in desired ensures l0[i] !in l1 {
      assert l0[i] !in kept && l0[i] < next0;
    }
    forall p | 0 <= p < n ensures l1[p] in l0 {
      assert l1[p] == kept[p] && kept[p] in kept;
    }
    forall p | 0 <= p < |l1| && l1[p] !in l0 ensures l1[p] !in stats0 && stats1[l1[p]].item == item {
      if p >= n {
        var t := p - n;
        assert |l1| == n + |added| && 0 <= t < |added|;
        assert l1[p] == next0 + t && added[t] in order;
        assert stats1[next0 + t].item == item;
      }
    }
  }

  /**
   * When the item's stats had one record per kind, so does the reconciled list, and every
   * listed stat carries its kind's desired amount.
   */
  lemma ReconciledAmounts(stats0: map<int, StatRec>, l0: seq<int>, next0: int,
                          stats1: map<int, StatRec>, l1: seq<int>, next1: int,
                          item: int, desired: map<int, int>, order: seq<int>)
    requires Known(stats0, l0) && (forall e | e in stats0 :: e < next0) && UniqueKinds(stats0, l0)
    requires Distinct(order) && forall k :: k in order <==> k in desired
    requires Reconciled(stats0, l0, next0, stats1, l1, next1, item, desired, order)
    ensures Known(stats1, l1) && UniqueKinds(stats1, l1)
    ensures forall p | 0 <= p < |l1| :: stats1[l1[p]].stat in desired && stats1[l1[p]].amount == desired[stats1[l1[p]].stat]
  {
    ReconciledFacts(stats0, l0, next0, stats1, l1, next1, item, desired, order);
    var added := Missing(stats0, l0, order);
    KeptUnique(stats0, l0, desired);
    assert forall t | 0 <= t < |added| :: added[t] in order;
    ListAmounts(stats0, l0, desired, stats1, l1, next0, next1, added);
    forall i, j | 0 <= i < j < |l1| ensures stats1[l1[i]].stat != stats1[l1[j]].stat {
      KeptUniqueAt(stats0, l0, desired, stats1, next0, next1, added, l1, i, j);
    }
  }

  lemma ListAmounts(stats0: map<int, StatRec>, l0: seq<int>, desired: map<int, int>,
                    stats1: map<int, StatRec>, l1: seq<int>, next0: int, next1: int, added: seq<int>)
    requires Known(stats0, l0) && UniqueKinds(stats0, l0)
    requires next0 <= next1 && |added| == next1 - next0
    requires l1 == Kept(stats0, l0, desired) + Range(next0, next1)
    requires forall i | 0 <= i < |l0| :: l0[i] in stats1 && stats1[l0[i]].stat == stats0[l0[i]].stat
    requires forall i | 0 <= i < |l0| && stats0[l0[i]].stat in desired
                                      && FirstOfKind(stats0, l0, stats0[l0[i]].stat) == Some(l0[i]) ::
               stats1[l0[i]].amount == desired[stats0[l0[i]].stat]
    requires forall t | 0 <= t < |added| :: added[t] in desired
    requires forall t | 0 <= t < |added| :: next0 + t in stats1 && stats1[next0 + t].stat == added[t]
                                            && stats1[next0 + t].amount == desired[added[t]]
    ensures forall p | 0 <= p < |l1| :: l1[p] in stats1 && stats1[l1[p]].stat in desired
                                        && stats1[l1[p]].amount == desired[stats1[l1[p]].stat]
  {
    var kept := Kept(stats0, l0, desired);
    var n := |kept|;
    forall p | 0 <= p < |l1|
      ensures l1[p] in stats1 && stats1[l1[p]].stat in desired && stats1[l1[p]].amount == desired[stats1[l1[p]].stat]
    {
      if p < n {
        var e := kept[p];
        assert l1[p] == e && e in kept;
        assert e in l0 && stats0[e].stat in desired;
        var i :| 0 <= i < |l0| && l0[i] == e;
        FirstIsOnly(stats0, l0, i);
        assert stats1[e].amount == desired[stats0[e].stat];
        assert stats1[e].stat in desired;
      } else {
        var t := p - n;
        assert 0 <= t < |added| && l1[p] == next0 + t && added[t] in desired;
        assert stats1[next0 + t].amount == desired[added[t]];
      }
    }
  }

  /** In a list with one stat per kind, each stat is the first of its kind. */
  lemma FirstIsOnly(stats: map<int, StatRec>, list: seq<int>, i: int)
    requires Known(stats, list) && UniqueKinds(stats, list) && 0 <= i < |list|
    ensures FirstOfKind(stats, list, stats[list[i]].stat) == Some(list[i])
  {
    var r := FirstOfKind(stats, list, stats[list[i]].stat);
    var q :| 0 <= q < |list| && list[q] == r.value;
    assert q == i;
  }

  lemma KeptUniqueAt(stats0: map<int, StatRec>, l0: seq<int>, desired: map<int, int>,
                     stats1: map<int, StatRec>, next0: int, next1: int, added: seq<int>, l1: seq<int>, i: int, j: int)
    requires Known(stats0, l0) && Distinct(added)
    requires Known(stats0, Kept(stats0, l0, desired)) && UniqueKinds(stats0, Kept(stats0, l0, desired))
    requires forall k | k in added :: !HasKind(stats0, l0, k)
    requires next0 <= next1 && |added| == next1 - next0
    requires l1 == Kept(stats0, l0, desired) + Range(next0, next1)
    requires forall i | 0 <= i < |l0| :: l0[i] in stats1 && stats1[l0[i]].stat == stats0[l0[i]].stat
    requires forall t | 0 <= t < |added| :: next0 + t in stats1 && stats1[next0 + t].stat == added[t]
    requires 0 <= i < j < |l1|
    ensures l1[i] in stats1 && l1[j] in stats1 && stats1[l1[i]].stat != stats1[l1[j]].stat
  {
    var kept := Kept(stats0, l0, desired);
    var n := |kept|;
    if j < n {
      assert l1[i] == kept[i] && l1[j] == kept[j];
      assert kept[i] in kept && kept[j] in kept;
    } else if i < n {
      assert l1[i] == kept[i] && kept[i] in kept;
      assert HasKind(stats0, l0, stats1[l1[i]].stat);
      assert l1[j] == next0 + (j - n) && added[j - n] in added;
    } else {
      assert l1[i] == next0 + (i - n) && l1[j] == next0 + (j - n);
      assert added[i - n] != added[j - n];
    }
  }

  /** Dropping stats keeps the remaining kinds unique. */
  lemma {:induction false} KeptUnique(stats0: map<int, StatRec>, l0: seq<int>, desired: map<int, int>)
    requires Known(stats0, l0) && UniqueKinds(stats0, l0)
    ensures Known(stats0, Kept(stats0, l0, desired)) && UniqueKinds(stats0, Kept(stats0, l0, desired))
  {
    KeptKnown(stats0, l0, desired, stats0);
    if l0 != [] {
      var x := l0[0];
      var tail := l0[1..];
      assert UniqueKinds(stats0, tail) by {
        forall a, b | 0 <= a < b < |tail| ensures stats0[tail[a]].stat != stats0[tail[b]].stat {
          assert tail[a] == l0[a + 1] && tail[b] == l0[b + 1];
        }
      }
      KeptUnique(stats0, tail, desired);
      var rest := Kept(stats0, tail, desired);
      if stats0[x].stat in desired {
        var kept := [x] + rest;
        assert Kept(stats0, l0, desired) == kept;
        forall a, b | 0 <= a < b < |kept| ensures stats0[kept[a]].stat != stats0[kept[b]].stat {
          if a == 0 {
            assert kept[b] == rest[b - 1] && rest[b - 1] in rest;
            var c :| 0 <= c < |tail| && tail[c] == rest[b - 1];
            assert l0[c + 1] == tail[c];
          } else {
            assert kept[a] == rest[a - 1] && kept[b] == rest[b - 1];
          }
        }
      }
    }
  }

  /** With no kind desired, no stat is kept. */
  lemma {:induction false} KeptNothing(stats: map<int, StatRec>, list: seq<int>)
    requires Known(stats, list)
    ensures Kept(stats, list, map[]) == []
  {
    if list != [] {
      KeptNothing(stats, list[1..]);
    }
  }

  /** An empty or all-zero stat list clears the item's stats. */
  lemma NothingDesiredClears(w0: Catalogue, w1: Catalogue, item: int, inputs: seq<StatInput>)
    requires StatsUpdated(w0, w1, item, Some(inputs)) && w0.items[item].itemStats.Some?
    requires forall i | 0 <= i < |inputs| :: inputs[i].amount == 0
    ensures w1.items[item].itemStats == Some([])
  {
    AllZeroDesiresNothing(inputs);
    var l0 := w0.items[item].itemStats.value;
    KeptNothing(w0.stats, l0);
    assert Range(w0.nextStat, w1.nextStat) == [];
  }

  /** An item without stats has no stat of any kind, so every desired kind is missing. */
  lemma {:induction false} MissingFromEmpty(stats: map<int, StatRec>, order: seq<int>)
    ensures Missing(stats, [], order) == order
  {
    if order != [] {
      var k, front := order[|order| - 1], order[..|order| - 1];
      MissingFromEmpty(stats, front);
      assert !HasKind(stats, [], k);
      assert Missing(stats, [], order) == Missing(stats, [], front) + [k];
      assert front + [k] == order;
    }
  }

  /**
   * A new item's stats: its empty list gets one new record per desired kind, in `order`, each
   * with the item's index and the desired amount.
   */
  lemma FreshItemStats(stats0: map<int, StatRec>, next0: int, stats1: map<int, StatRec>, l1: seq<int>, next1: int,
                       item: int, desired: map<int, int>, order: seq<int>)
    requires Reconciled(stats0, [], next0, stats1, l1, next1, item, desired, order)
    ensures l1 == Range(next0, next1) && next1 - next0 == |order|
    ensures forall t | 0 <= t < |order| ::
              order[t] in desired && next0 + t in stats1 && stats1[next0 + t] == StatRec(order[t], desired[order[t]], item)
  {
    MissingFromEmpty(stats0, order);
    assert Kept(stats0, [], desired) == [];
  }

  // ---------------------------------------------------------------------------------------
  // The stack-size rule

  /** `stackSize > 0 ? stackSize : 1`: a positive stack size is kept and any other becomes 1. */
  function ClampStackSize(stackSize: int): (r: int)
    ensures r >= 1
    ensures stackSize >= 1 ==> r == stackSize
    ensures r == stackSize || r == 1
  {
    if stackSize > 0 then stackSize else 1
  }

  /** The item record after the edit handler copied the request's fields into it. */
  function Edited(rec: ItemRec, itemName: Option<string>, attributes: Attributes, stackSize: int): ItemRec
  {
    rec.(itemName := itemName, attributes := attributes, stackSize := ClampStackSize(stackSize))
  }

  // ---------------------------------------------------------------------------------------
  // The two loops of the reconciliation

  /**
   * The removal `foreach` of `UpdateItemStats`: each stale stat leaves the item's list
   * (`List.Remove`) and the stat binding list (`Delete()`).
   */
  method RemoveStale(list0: seq<int>, bound0: set<int>, toRemove: seq<int>) returns (list: seq<int>, bound: set<int>)
    requires Distinct(list0)
    ensures Distinct(list)
    ensures list == FilterOut(list0, Elements(toRemove))
    ensures bound == bound0 - Elements(toRemove)
  {
    list, bound := list0, bound0;
    ghost var gone: set<int> := {};
    FilterOutNothing(list0);
    for j := 0 to |toRemove|
      invariant gone == Elements(toRemove[..j])
      invariant list == FilterOut(list0, gone) && Distinct(list)
      invariant bound == bound0 - gone
    {
      var stat := toRemove[j];
      RemoveStaleStep(list0, toRemove, j, gone);
      list := RemoveFirst(list, stat);
      bound := bound - {stat};
      gone := gone + {stat};
    }
    assert toRemove[..|toRemove|] == toRemove;
  }

  /**
   * The upsert `foreach` of `UpdateItemStats`: for each desired kind in enumeration order, the
   * first stat of that kind gets the desired amount, or, when the item has none, a new record of
   * that kind is created with the next index and linked to the item. `l0` is the item's list
   * before the stale stats were removed and `list0` the list after.
   */
  method UpsertStats(item: int, order: seq<int>, newStats: map<int, int>, l0: seq<int>,
                     stats0: map<int, StatRec>, list0: seq<int>, next0: int, bound0: set<int>)
    returns (stats: map<int, StatRec>, list: seq<int>, next: int, bound: set<int>)
    requires Known(stats0, l0) && list0 == Kept(stats0, l0, newStats)
    requires forall e | e in stats0 :: e < next0
    requires Distinct(order) && forall k :: k in order <==> k in newStats
    ensures Reconciled(stats0, l0, next0, stats, list, next, item, newStats, order)
    ensures bound == bound0 + Span(next0, next)
  {
    stats, list, next, bound := stats0, list0, next0, bound0;
    ReconciledStart(stats0, l0, next0, item, newStats);
    for j := 0 to |order|
      invariant Reconciled(stats0, l0, next0, stats, list, next, item, newStats, order[..j])
      invariant bound == bound0 + Span(next0, next)
    {
      stats, list, next, bound := UpsertKind(item, order, j, newStats, l0, stats0, next0, bound0, stats, list, next, bound);
    }
    assert order[..|order|] == order;
  }

  /** One turn of the upsert loop, for the kind `order[j]`. */
  method UpsertKind(item: int, order: seq<int>, j: int, newStats: map<int, int>, l0: seq<int>,
                    stats0: map<int, StatRec>, next0: int, bound0: set<int>,
                    stats: map<int, StatRec>, list: seq<int>, next: int, bound: set<int>)
    returns (stats': map<int, StatRec>, list': seq<int>, next': int, bound': set<int>)
    requires UpsertReady(stats0, l0, next0, newStats, order) && 0 <= j < |order|
    requires Reconciled(stats0, l0, next0, stats, list, next, item, newStats, order[..j])
    requires bound == bound0 + Span(next0, next)
    ensures Reconciled(stats0, l0, next0, stats', list', next', item, newStats, order[..j + 1])
    ensures bound' == bound0 + Span(next0, next')
  {
    var kind := order[j];
    ReconciledStep(stats0, l0, next0, stats, list, next, item, newStats, order, j);
    var existing := FirstOfKind(stats, list, kind);
    if existing.Some? {
      var e := existing.value;
      stats', list', next', bound' := stats[e := stats[e].(amount := newStats[kind])], list, next, bound;
    } else {
      var id := next;
      RangeGrows(next0, next);
      stats', list', next', bound' := stats[id := StatRec(kind, newStats[kind], item)], list + [id], next + 1, bound + {id};
    }
  }

  /** What the upsert loop assumes of its inputs. */
  ghost predicate UpsertReady(stats0: map<int, StatRec>, l0: seq<int>, next0: int, desired: map<int, int>, order: seq<int>)
  {
    && Known(stats0, l0) && (forall e | e in stats0 :: e < next0)
    && Distinct(order) && (forall k :: k in order <==> k in desired)
  }

  /** One turn of the upsert loop reconciles one more kind, whichever branch it takes. */
  lemma ReconciledStep(stats0: map<int, StatRec>, l0: seq<int>, next0: int,
                       stats: map<int, StatRec>, list: seq<int>, next: int,
                       item: int, desired: map<int, int>, order: seq<int>, j: int)
    requires UpsertReady(stats0, l0, next0, desired, order) && 0 <= j < |order|
    requires Reconciled(stats0, l0, next0, stats, list, next, item, desired, order[..j])
    ensures order[j] in desired && Known(stats, list)
    ensures var first := FirstOfKind(stats, list, order[j]);
            && (first.Some? ==>
                  first.value in stats &&
                  Reconciled(stats0, l0, next0, stats[first.value := stats[first.value].(amount := desired[order[j]])],
                             list, next, item, desired, order[..j + 1]))
            && (first.None? ==>
                  Reconciled(stats0, l0, next0, stats[next := StatRec(order[j], desired[order[j]], item)],
                             list + [next], next + 1, item, desired, order[..j + 1]))
  {
    ReconciledFirst(stats0, l0, next0, stats, list, next, item, desired, order, j);
    if FirstOfKind(stats0, l0, order[j]).Some? {
      ReconciledUpdate(stats0, l0, next0, stats, list, next, item, desired, order, j);
    } else {
      ReconciledCreate(stats0, l0, next0, stats, list, next, item, desired, order, j);
    }
  }

  /** Before the upsert loop, the kept list is reconciled with no kind done. */
  lemma ReconciledStart(stats0: map<int, StatRec>, l0: seq<int>, next0: int, item: int, desired: map<int, int>)
    requires Known(stats0, l0)
    ensures Reconciled(stats0, l0, next0, stats0, Kept(stats0, l0, desired), next0, item, desired, [])
  {
    assert Kept(stats0, l0, desired) + Range(next0, next0) == Kept(stats0, l0, desired);
  }

  /** Midway through the upsert loop, the first stat of a kind not yet done is the one the original list had first. */
  lemma ReconciledFirst(stats0: map<int, StatRec>, l0: seq<int>, next0: int,
                        stats: map<int, StatRec>, list: seq<int>, next: int,
                        item: int, desired: map<int, int>, order: seq<int>, j: int)
    requires Known(stats0, l0) && (forall e | e in stats0 :: e < next0)
    requires Distinct(order) && (forall k :: k in order <==> k in desired) && 0 <= j < |order|
    requires Reconciled(stats0, l0, next0, stats, list, next, item, desired, order[..j])
    ensures Known(stats, list) && FirstOfKind(stats, list, order[j]) == FirstOfKind(stats0, l0, order[j])
  {
    var done, kind := order[..j], order[j];
    DistinctAt(order, j);
    var added := Missing(stats0, l0, done);
    var range := Range(next0, next);
    forall i | 0 <= i < |range| ensures range[i] in stats && stats[range[i]].stat != kind {
      assert range[i] == next0 + i && added[i] in done;
      assert next0 + i in Span(next0, next);
    }
    forall i | 0 <= i < |l0| ensures l0[i] in stats && stats[l0[i]].stat == stats0[l0[i]].stat {
      assert l0[i] in stats0;
      assert stats[l0[i]] == Refreshed(stats0, l0, desired, done, l0[i]);
    }
    FirstOfKindKept(stats0, l0, desired, stats, range, kind);
  }

  /** Giving the first stat of a kind its desired amount reconciles one more kind. */
  lemma ReconciledUpdate(stats0: map<int, StatRec>, l0: seq<int>, next0: int,
                         stats: map<int, StatRec>, list: seq<int>, next: int,
                         item: int, desired: map<int, int>, order: seq<int>, j: int)
    requires Known(stats0, l0) && (forall e | e in stats0 :: e < next0)
    requires Distinct(order) && (forall k :: k in order <==> k in desired) && 0 <= j < |order|
    requires Reconciled(stats0, l0, next0, stats, list, next, item, desired, order[..j])
    requires FirstOfKind(stats0, l0, order[j]).Some?
    ensures var e := FirstOfKind(stats0, l0, order[j]).value;
            e in stats &&
            Reconciled(stats0, l0, next0, stats[e := stats[e].(amount := desired[order[j]])], list, next,
                       item, desired, order[..j + 1])
  {
    var kind := order[j];
    var e := FirstOfKind(stats0, l0, kind).value;
    var i :| 0 <= i < |l0| && l0[i] == e;
    assert HasKind(stats0, l0, kind);
    MissingGrows(stats0, l0, order, j);
    RefreshedAfterUpdate(stats0, l0, stats, desired, order, j);
    var s1 := stats[e := stats[e].(amount := desired[kind])];
    AddedAfterUpdate(stats, next0, Missing(stats0, l0, order[..j]), desired, item, e, s1[e]);
    assert s1.Keys == stats.Keys;
  }

  /** Linking a new record of a kind the list lacks reconciles one more kind. */
  lemma ReconciledCreate(stats0: map<int, StatRec>, l0: seq<int>, next0: int,
                         stats: map<int, StatRec>, list: seq<int>, next: int,
                         item: int, desired: map<int, int>, order: seq<int>, j: int)
    requires Known(stats0, l0) && (forall e | e in stats0 :: e < next0)
    requires Distinct(order) && (forall k :: k in order <==> k in desired) && 0 <= j < |order|
    requires Reconciled(stats0, l0, next0, stats, list, next, item, desired, order[..j])
    requires FirstOfKind(stats0, l0, order[j]).None?
    ensures Reconciled(stats0, l0, next0, stats[next := StatRec(order[j], desired[order[j]], item)], list + [next],
                       next + 1, item, desired, order[..j + 1])
  {
    var kind := order[j];
    assert !HasKind(stats0, l0, kind);
    MissingGrows(stats0, l0, order, j);
    var before := Missing(stats0, l0, order[..j]);
    var added := Missing(stats0, l0, order[..j + 1]);
    assert added == before + [kind];
    RangeGrows(next0, next);
    var rec := StatRec(kind, desired[kind], item);
    var s1 := stats[next := rec];
    RefreshedAfterCreate(stats0, l0, stats, desired, order, j, next, rec);
    AddedAfterCreate(stats, next0, before, desired, item, kind);
    var kept := Kept(stats0, l0, desired);
    assert next + 1 == next0 + |added|;
    AppendOne(kept, Range(next0, next), next);
    assert s1.Keys == stats0.Keys + Span(next0, next + 1) by {
      assert s1.Keys == stats.Keys + {next};
    }
    assert AddedRecords(s1, next0, added, desired, item);
    assert RefreshedRecords(stats0, l0, s1, desired, order[..j + 1]);
  }

  lemma AppendOne(a: seq<int>, b: seq<int>, x: int)
    ensures (a + b) + [x] == a + (b + [x])
  {
  }

  /** Changing a record below `next0` leaves the added records as they are. */
  lemma AddedAfterUpdate(stats: map<int, StatRec>, next0: int, added: seq<int>, desired: map<int, int>, item: int,
                         e: int, r: StatRec)
    requires AddedRecords(stats, next0, added, desired, item) && e < next0
    ensures AddedRecords(stats[e := r], next0, added, desired, item)
  {
  }

  /** Creating the record for one more missing kind at the next index extends the added records. */
  lemma AddedAfterCreate(stats: map<int, StatRec>, next0: int, added: seq<int>, desired: map<int, int>, item: int,
                         kind: int)
    requires AddedRecords(stats, next0, added, desired, item) && kind in desired
    ensures AddedRecords(stats[next0 + |added| := StatRec(kind, desired[kind], item)], next0, added + [kind], desired, item)
  {
    var s1 := stats[next0 + |added| := StatRec(kind, desired[kind], item)];
    forall t | 0 <= t < |added| + 1
      ensures (added + [kind])[t] in desired && next0 + t in s1
              && s1[next0 + t] == StatRec((added + [kind])[t], desired[(added + [kind])[t]], item)
    {
      if t < |added| {
        assert (added + [kind])[t] == added[t];
      }
    }
  }

  /** The kinds of `order[..j + 1]` are those of `order[..j]` and `order[j]`. */
  lemma SliceGrows(order: seq<int>, j: int)
    requires 0 <= j < |order|
    ensures forall k :: k in order[..j + 1] <==> k in order[..j] || k == order[j]
  {
    assert order[..j + 1] == order[..j] + [order[j]];
  }

  /** Giving the first stat of `order[j]` its amount refreshes the old records for one more kind. */
  lemma RefreshedAfterUpdate(stats0: map<int, StatRec>, l0: seq<int>, stats: map<int, StatRec>,
                             desired: map<int, int>, order: seq<int>, j: int)
    requires Known(stats0, l0) && Distinct(order) && 0 <= j < |order| && order[j] in desired
    requires FirstOfKind(stats0, l0, order[j]).Some?
    requires RefreshedRecords(stats0, l0, stats, desired, order[..j])
    ensures var e := FirstOfKind(stats0, l0, order[j]).value;
            e in stats &&
            RefreshedRecords(stats0, l0, stats[e := stats[e].(amount := desired[order[j]])], desired, order[..j + 1])
  {
    var kind := order[j];
    var e := FirstOfKind(stats0, l0, kind).value;
    var i :| 0 <= i < |l0| && l0[i] == e;
    assert e in stats0;
    DistinctAt(order, j);
    SliceGrows(order, j);
    var s1 := stats[e := stats[e].(amount := desired[kind])];
    forall x | x in stats0 ensures x in s1 && s1[x] == Refreshed(stats0, l0, desired, order[..j + 1], x) {
      assert stats[x] == Refreshed(stats0, l0, desired, order[..j], x);
    }
  }

  /** A record at an index no old record has leaves the old records refreshed for one more kind, when the list lacks that kind. */
  lemma RefreshedAfterCreate(stats0: map<int, StatRec>, l0: seq<int>, stats: map<int, StatRec>,
                             desired: map<int, int>, order: seq<int>, j: int, id: int, r: StatRec)
    requires Known(stats0, l0) && 0 <= j < |order| && id !in stats0
    requires FirstOfKind(stats0, l0, order[j]).None?
    requires RefreshedRecords(stats0, l0, stats, desired, order[..j])
    ensures RefreshedRecords(stats0, l0, stats[id := r], desired, order[..j + 1])
  {
    SliceGrows(order, j);
    forall x | x in stats0 ensures x in stats[id := r] && stats[id := r][x] == Refreshed(stats0, l0, desired, order[..j + 1], x) {
      assert stats[x] == Refreshed(stats0, l0, desired, order[..j], x);
    }
  }

  /** Doing one more kind adds it to the missing kinds exactly when the list lacks it. */
  lemma MissingGrows(stats: map<int, StatRec>, list: seq<int>, order: seq<int>, j: int)
    requires Known(stats, list) && 0 <= j < |order|
    ensures Missing(stats, list, order[..j + 1])
            == Missing(stats, list, order[..j]) + (if HasKind(stats, list, order[j]) then [] else [order[j]])
  {
    assert order[..j + 1][..j] == order[..j];
  }

  /** One more index extends the index range by that index. */
  lemma RangeGrows(lo: int, hi: int)
    requires lo <= hi
    ensures Range(lo, hi + 1) == Range(lo, hi) + [hi]
    ensures Span(lo, hi + 1) == Span(lo, hi) + {hi}
  {
  }

  /** The catalogue once the item's reconciled list, the stat records, the counter and the binding list are written back and `StatsChanged` has run. */
  function Linked(w0: Catalogue, item: int, list: seq<int>, stats: map<int, StatRec>, next: int, bound: set<int>): Catalogue
    requires item in w0.items
  {
    w0.(items := w0.items[item := w0.items[item].(itemStats := Some(list))], stats := stats, nextStat := next,
        statList := bound, recomputed := w0.recomputed + [item])
  }

  /** Writing back what the two loops computed is a stats update, and keeps the catalogue sound. */
  lemma LinkedUpdated(w0: Catalogue, item: int, parsed: Option<seq<StatInput>>,
                      list: seq<int>, stats: map<int, StatRec>, next: int, bound: set<int>)
    requires Sound(w0) && item in w0.items && w0.items[item].itemStats.Some? && parsed.Some?
    requires var l0 := w0.items[item].itemStats.value;
             var desired := Desired(parsed.value);
             && Reconciled(w0.stats, l0, w0.nextStat, stats, list, next, item, desired, KeyOrder(parsed.value))
             && bound == w0.statList - Elements(Stale(w0.stats, l0, desired)) + Span(w0.nextStat, next)
    ensures StatsUpdated(w0, Linked(w0, item, list, stats, next, bound), item, parsed)
    ensures Sound(Linked(w0, item, list, stats, next, bound))
  {
    ReconciledSound(w0, Linked(w0, item, list, stats, next, bound), item, parsed);
  }

  /**
   * The stat records after the reconciliation: the old records, refreshed, and one new record
   * per missing kind at the indices from `next0` on.
   */
  ghost function ReconciledStats(stats0: map<int, StatRec>, l0: seq<int>, next0: int,
                                 item: int, desired: map<int, int>, order: seq<int>): map<int, StatRec>
    requires Known(stats0, l0)
    requires forall k | k in order :: k in desired
  {
    var added := Missing(stats0, l0, order);
    MissingDesired(stats0, l0, order, desired);
    map e | e in stats0.Keys + Span(next0, next0 + |added|) ::
      if e in stats0 then Refreshed(stats0, l0, desired, order, e)
      else StatRec(added[e - next0], desired[added[e - next0]], item)
  }

  /** Every missing kind is a desired kind. */
  lemma MissingDesired(stats0: map<int, StatRec>, l0: seq<int>, order: seq<int>, desired: map<int, int>)
    requires Known(stats0, l0) && forall k | k in order :: k in desired
    ensures forall t | 0 <= t < |Missing(stats0, l0, order)| :: Missing(stats0, l0, order)[t] in desired
  {
  }

  /** The reconciliation is a function of its inputs: only the computed list, records and counter satisfy it. */
  lemma ReconciledUnique(stats0: map<int, StatRec>, l0: seq<int>, next0: int,
                         stats1: map<int, StatRec>, l1: seq<int>, next1: int,
                         item: int, desired: map<int, int>, order: seq<int>)
    requires Known(stats0, l0) && (forall k | k in order :: k in desired)
    requires Reconciled(stats0, l0, next0, stats1, l1, next1, item, desired, order)
    ensures next1 == next0 + |Missing(stats0, l0, order)|
    ensures l1 == Kept(stats0, l0, desired) + Range(next0, next1)
    ensures stats1 == ReconciledStats(stats0, l0, next0, item, desired, order)
  {
    var r := ReconciledStats(stats0, l0, next0, item, desired, order);
    ReconciledStatsShape(stats0, l0, next0, item, desired, order);
    assert stats1.Keys == r.Keys;
    forall e | e in r ensures stats1[e] == r[e] {
      ReconciledAgreesAt(stats0, l0, next0, stats1, l1, next1, item, desired, order, e);
    }
  }

  /** A reconciliation has, at each index, the record the reconciled records have there. */
  lemma ReconciledAgreesAt(stats0: map<int, StatRec>, l0: seq<int>, next0: int,
                           stats1: map<int, StatRec>, l1: seq<int>, next1: int,
                           item: int, desired: map<int, int>, order: seq<int>, e: int)
    requires Known(stats0, l0) && (forall k | k in order :: k in desired)
    requires Reconciled(stats0, l0, next0, stats1, l1, next1, item, desired, order)
    requires e in ReconciledStats(stats0, l0, next0, item, desired, order)
    ensures e in stats1 && stats1[e] == ReconciledStats(stats0, l0, next0, item, desired, order)[e]
  {
    ReconciledStatsShape(stats0, l0, next0, item, desired, order);
    if e !in stats0 {
      var added := Missing(stats0, l0, order);
      assert e in Span(next0, next1);
      var t := e - next0;
      assert 0 <= t < |added| && added[t] == added[t];
    }
  }

  /** The computed list, records and counter satisfy the reconciliation. */
  lemma ReconciledExists(stats0: map<int, StatRec>, l0: seq<int>, next0: int,
                         item: int, desired: map<int, int>, order: seq<int>)
    requires Known(stats0, l0) && (forall e | e in stats0 :: e < next0) && (forall k | k in order :: k in desired)
    ensures var next1 := next0 + |Missing(stats0, l0, order)|;
            Reconciled(stats0, l0, next0, ReconciledStats(stats0, l0, next0, item, desired, order),
                       Kept(stats0, l0, desired) + Range(next0, next1), next1, item, desired, order)
  {
    var added := Missing(stats0, l0, order);
    var r := ReconciledStats(stats0, l0, next0, item, desired, order);
    ReconciledStatsShape(stats0, l0, next0, item, desired, order);
    forall t | 0 <= t < |added|
      ensures added[t] in desired && next0 + t in r && r[next0 + t] == StatRec(added[t], desired[added[t]], item)
    {
      ReconciledStatsAt(stats0, l0, next0, item, desired, order, t);
    }
    assert AddedRecords(r, next0, added, desired, item);
  }

  /** The reconciled records hold, at `next0 + t`, the new record for the `t`-th missing kind. */
  lemma ReconciledStatsAt(stats0: map<int, StatRec>, l0: seq<int>, next0: int,
                          item: int, desired: map<int, int>, order: seq<int>, t: int)
    requires Known(stats0, l0) && (forall e | e in stats0 :: e < next0) && (forall k | k in order :: k in desired)
    requires 0 <= t < |Missing(stats0, l0, order)|
    ensures var added := Missing(stats0, l0, order);
            var r := ReconciledStats(stats0, l0, next0, item, desired, order);
            added[t] in desired && next0 + t in r && r[next0 + t] == StatRec(added[t], desired[added[t]], item)
  {
    var added := Missing(stats0, l0, order);
    var e := next0 + t;
    assert e in Span(next0, next0 + |added|) && e !in stats0;
    assert e - next0 == t;
    assert added[t] in order;
  }

  /** The reconciled records are the old ones, refreshed, and those at the indices from `next0` on. */
  lemma ReconciledStatsShape(stats0: map<int, StatRec>, l0: seq<int>, next0: int,
                             item: int, desired: map<int, int>, order: seq<int>)
    requires Known(stats0, l0) && (forall k | k in order :: k in desired)
    ensures var r := ReconciledStats(stats0, l0, next0, item, desired, order);
            && r.Keys == stats0.Keys + Span(next0, next0 + |Missing(stats0, l0, order)|)
            && RefreshedRecords(stats0, l0, r, desired, order)
  {
  }

  /** `UpdateItemStats` on a copy of the catalogue: its two loops, then the write-back. */
  method ReconcileCopy(w0: Catalogue, item: int, parsed: Option<seq<StatInput>>) returns (w1: Catalogue)
    requires Sound(w0) && item in w0.items
    ensures StatsUpdated(w0, w1, item, parsed) && Sound(w1)
  {
    if w0.items[item].itemStats.None? || parsed.None? {
      return w0;
    }
    var order, newStats := BuildDesired(parsed.value);
    var l0 := w0.items[item].itemStats.value;
    var toRemove := Stale(w0.stats, l0, newStats);
    var list, bound := RemoveStale(l0, w0.statList, toRemove);
    FilterOutStale(w0.stats, l0, newStats, Elements(toRemove));
    var after, next;
    after, list, next, bound := UpsertStats(item, order, newStats, l0, w0.stats, list, w0.nextStat, bound);
    ReconciledUnique(w0.stats, l0, w0.nextStat, after, list, next, item, newStats, order);
    w1 := Linked(w0, item, list, after, next, bound);
    LinkedUpdated(w0, item, parsed, list, after, next, bound);
  }

  /**
   * After the field copy of a create or edit handler, `UpdateItemStats` runs only when the
   * submitted stats string is not null or white space.
   */
  ghost predicate StatsStep(w: Catalogue, w1: Catalogue, item: int, statsText: Option<string>,
                            parsed: Option<seq<StatInput>>)
  {
    if IsNullOrWhiteSpace(statsText) then w1 == w else StatsUpdated(w, w1, item, parsed)
  }

  /** `OnPostCreateItem` past its checks: a new item at the next index joins the binding list, then its stats are set. */
  ghost predicate ItemCreated(w0: Catalogue, w1: Catalogue, itemName: Option<string>, attributes: Attributes,
                              stackSize: int, statsText: Option<string>, parsed: Option<seq<StatInput>>)
  {
    var n := w0.nextItem;
    var rec := ItemRec(itemName, attributes, ClampStackSize(stackSize), Some([]));
    StatsStep(w0.(items := w0.items[n := rec], itemList := w0.itemList + {n}, nextItem := n + 1),
              w1, n, statsText, parsed)
  }

  /** `OnPostUpdateItem` past its checks: the item's fields are overwritten, then its stats are set. */
  ghost predicate ItemEdited(w0: Catalogue, w1: Catalogue, item: int, itemName: Option<string>,
                             attributes: Attributes, stackSize: int, statsText: Option<string>,
                             parsed: Option<seq<StatInput>>)
    requires item in w0.items
  {
    StatsStep(w0.(items := w0.items[item := Edited(w0.items[item], itemName, attributes, stackSize)]),
              w1, item, statsText, parsed)
  }

  /** Adding a new item with an empty stat list under the next item index keeps the catalogue sound. */
  lemma FreshItemSound(w0: Catalogue, rec: ItemRec)
    requires Sound(w0) && rec.itemStats == Some([])
    ensures var n := w0.nextItem;
            Sound(w0.(items := w0.items[n := rec], itemList := w0.itemList + {n}, nextItem := n + 1))
  {
  }

  /** The stats step of the create and edit handlers, on a copy of the catalogue. */
  method StatsStepCopy(w: Catalogue, item: int, statsText: Option<string>, parsed: Option<seq<StatInput>>)
    returns (w1: Catalogue)
    requires Sound(w) && item in w.items
    ensures StatsStep(w, w1, item, statsText, parsed) && Sound(w1)
  {
    if IsNullOrWhiteSpace(statsText) {
      return w;
    }
    w1 := ReconcileCopy(w, item, parsed);
  }

  // ---------------------------------------------------------------------------------------
  // The item database

  class ItemDb {
    var items: map<int, ItemRec>         // every ItemInfo ever created, by index
    var itemList: set<int>               // ItemInfoList.Binding
    var stats: map<int, StatRec>         // every ItemInfoStat ever created, by index
    var statList: set<int>               // ItemInfoStatList.Binding
    var nextItem: int                    // the index CreateNewObject gives the next item
    var nextStat: int                    // the index CreateNewObject gives the next stat
    var recomputed: seq<int>             // the items StatsChanged ran on, in order

    function State(): Catalogue
      reads this
    {
      Catalogue(items, itemList, stats, statList, nextItem, nextStat, recomputed)
    }

    ghost predicate Valid()
      reads this
    {
      Sound(State())
    }

    constructor ()
      ensures Valid() && items == map[] && itemList == {} && stats == map[] && statList == {}
      ensures recomputed == []
    {
      items, itemList, stats, statList := map[], {}, map[], {};
      nextItem, nextStat, recomputed := 0, 0, [];
    }

    /** `UpdateItemStats(item, statsJson)`, given what the deserializer made of `statsJson`. */
    method UpdateItemStats(item: int, parsed: Option<seq<StatInput>>)
      requires Valid() && item in items
      modifies this
      ensures Valid() && StatsUpdated(old(State()), State(), item, parsed)
    {
      var w1 := ReconcileCopy(State(), item, parsed);
      items, stats, nextStat, statList, recomputed := w1.items, w1.stats, w1.nextStat, w1.statList, w1.recomputed;
      assert State() == w1;
    }

    /**
     * `OnPostCreateItem`; `statsText` is the submitted stats string and `parsed` what the
     * deserializer made of it.
     */
    method CreateItem(claim: Option<string>, itemName: Option<string>, attributes: Attributes, stackSize: int,
                      statsText: Option<string>, parsed: Option<seq<StatInput>>) returns (reply: Reply)
      requires Valid()
      modifies this
      ensures Valid()
      ensures reply == if !HasPermission(claim, SuperAdmin) then Failed(Forbidden)
                       else if IsNullOrWhiteSpace(itemName) then Failed(NameEmpty)
                       else Created(old(nextItem))
      ensures reply.Failed? ==> unchanged(this)
      ensures reply.Created? ==> ItemCreated(old(State()), State(), itemName, attributes, stackSize, statsText, parsed)
    {
      if !HasPermission(claim, SuperAdmin) {
        return Failed(Forbidden);
      }
      if IsNullOrWhiteSpace(itemName) {
        return Failed(NameEmpty);
      }
      var n := AddItem(itemName, attributes, stackSize, statsText, parsed);
      reply := Created(n);
    }

    /** `OnPostCreateItem` past its checks: the new item is added, then its stats are set. */
    method AddItem(itemName: Option<string>, attributes: Attributes, stackSize: int,
                   statsText: Option<string>, parsed: Option<seq<StatInput>>) returns (n: int)
      requires Valid()
      modifies this
      ensures Valid() && n == old(nextItem)
      ensures ItemCreated(old(State()), State(), itemName, attributes, stackSize, statsText, parsed)
    {
      ghost var w0 := State();
      n := nextItem;
      var rec := ItemRec(itemName, attributes, ClampStackSize(stackSize), Some([]));
      FreshItemSound(w0, rec);
      items := items[n := rec];
      itemList := itemList + {n};
      nextItem := n + 1;
      assert State() == w0.(items := w0.items[n := rec], itemList := w0.itemList + {n}, nextItem := n + 1);
      var w1 := StatsStepCopy(State(), n, statsText, parsed);
      items, stats, nextStat, statList, recomputed := w1.items, w1.stats, w1.nextStat, w1.statList, w1.recomputed;
      assert State() == w1;
    }

    /** `OnPostUpdateItem`: the item is looked up in the binding list by its index. */
    method UpdateItem(claim: Option<string>, itemIndex: int, itemName: Option<string>, attributes: Attributes,
                      stackSize: int, statsText: Option<string>, parsed: Option<seq<StatInput>>) returns (reply: Reply)
      requires Valid()
      modifies this
      ensures Valid()
      ensures reply == if !HasPermission(claim, SuperAdmin) then Failed(Forbidden)
                       else if itemIndex !in old(itemList) then Failed(ItemMissing)
                       else Done
      ensures reply.Failed? ==> unchanged(this)
      ensures reply.Done? ==>
        itemIndex in old(items) &&
        ItemEdited(old(State()), State(), itemIndex, itemName, attributes, stackSize, statsText, parsed)
    {
      if !HasPermission(claim, SuperAdmin) {
        return Failed(Forbidden);
      }
      if itemIndex !in itemList {
        return Failed(ItemMissing);
      }
      items := items[itemIndex := Edited(items[itemIndex], itemName, attributes, stackSize)];
      if !IsNullOrWhiteSpace(statsText) {
        UpdateItemStats(itemIndex, parsed);
      }
      reply := Done;
    }
  }
}
