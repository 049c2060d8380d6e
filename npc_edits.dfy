/**
 * What the structural NPC handlers do to the dialogue graph, as functions of the world
 * before the call, and what they keep: consistency, the graph's edges, the lists of the
 * pages they do not touch.
 */
module NpcEdits {
  import opened Common
  import opened DialogGraph

  /** The two worlds have exactly the same edges. */
  ghost predicate SameEdges(s1: Store, s0: Store)
  {
    forall q, r :: Edge(s1, q, r) <==> Edge(s0, q, r)
  }

  /** `Binding.FirstOrDefault(x => x.Index == idx)` over a catalogue of indices. */
  function Lookup(list: set<int>, idx: int): Option<int>
  {
    if idx in list then Some(idx) else None
  }

  /** `rate > 0 ? rate : 1M`: a good's rate is never zero or negative. */
  function ClampRate(rate: real): (r: real)
    ensures r > 0.0
    ensures rate > 0.0 ==> r == rate
    ensures rate <= 0.0 ==> r == 1.0
  {
    if rate > 0.0 then rate else 1.0
  }

  /** A page fresh from `CreateNewObject` once the handler has set its description, dialog type and text. */
  function NewPage(description: string, dialogType: int, say: string): NpcPage
  {
    NpcPage(description, dialogType, say, "", None, [], [], [], [])
  }

  /** A page with no outgoing edge and no records. */
  predicate Bare(pg: NpcPage)
  {
    pg.successPage.None? && pg.checks == [] && pg.actions == [] && pg.buttons == [] && pg.goods == []
  }

  /** The next index `CreateNewObject` hands out, per kind of record. */
  datatype Counters = Counters(page: int, check: int, action: int, button: int, good: int)

  /** Every record has an index below the counter of its kind, so the next index is fresh. */
  ghost predicate Below(s: Store, n: Counters)
  {
    && (forall q :: q in s.pages ==> q < n.page)
    && (forall c :: c in s.checks ==> c < n.check)
    && (forall a :: a in s.actions ==> a < n.action)
    && (forall b :: b in s.buttons ==> b < n.button)
    && (forall g :: g in s.goods ==> g < n.good)
  }

  /** The world is consistent and every counter is above every index it has handed out. */
  ghost predicate Consistent(s: Store, n: Counters)
  {
    Valid(s) && Below(s, n)
  }

  // ----- pages and entry pages -----

  /** `NPCPageList.CreateNewObject()`: page `id` joins the heap and the page list. */
  function WithNewPage(s: Store, id: int, pg: NpcPage): Store
  {
    s.(pages := s.pages[id := pg], pageList := s.pageList + {id})
  }

  /** `npc.EntryPage = e`. */
  function WithEntry(s: Store, n: int, e: Option<int>): Store
    requires n in s.npcs
  {
    s.(npcs := s.npcs[n := s.npcs[n].(entryPage := e)])
  }

  /**
   * A new bare page keeps the world consistent, adds no edge, is found by `FindPage`,
   * and reaches nothing but itself.
   */
  lemma NewPageAdded(s: Store, id: int, pg: NpcPage)
    requires Valid(s) && id !in s.pages && Bare(pg)
    ensures Valid(WithNewPage(s, id, pg))
    ensures SameEdges(WithNewPage(s, id, pg), s)
    ensures Located(WithNewPage(s, id, pg), id) == Some(id)
    ensures ReachableFrom(WithNewPage(s, id, pg), id) == {id}
  {
    var r := WithNewPage(s, id, pg);
    NewPageValid(s, id, pg);
    forall q, x ensures Edge(r, q, x) <==> Edge(s, q, x) {
      if q == id {
        assert !Edge(r, q, x);
      } else if q in s.pages {
        assert r.pages[q] == s.pages[q];
      }
    }
    OnlyItself(r, id);
  }

  lemma NewPageValid(s: Store, id: int, pg: NpcPage)
    requires Valid(s) && id !in s.pages && Bare(pg)
    ensures Valid(WithNewPage(s, id, pg))
  {
    NewPageLinked(s, id, pg);
    NewPageRefs(s, id, pg);
    NewPageRecords(s, id, pg);
  }

  lemma NewPageLinked(s: Store, id: int, pg: NpcPage)
    requires Valid(s) && id !in s.pages && Bare(pg)
    ensures PagesLinked(WithNewPage(s, id, pg)) && ListsKnown(WithNewPage(s, id, pg))
  {
  }

  lemma NewPageRefs(s: Store, id: int, pg: NpcPage)
    requires Valid(s) && id !in s.pages && Bare(pg)
    ensures BackRefsHold(WithNewPage(s, id, pg))
  {
    var r := WithNewPage(s, id, pg);
    assert CheckRefsHold(r) && ButtonRefsHold(r);
  }

  lemma NewPageRecords(s: Store, id: int, pg: NpcPage)
    requires Valid(s) && id !in s.pages && Bare(pg)
    ensures RecordsLinked(WithNewPage(s, id, pg))
  {
  }

  /** A page with no outgoing edge reaches only itself. */
  lemma OnlyItself(s: Store, id: int)
    requires id in s.pages && Bare(s.pages[id])
    ensures ReachableFrom(s, id) == {id}
  {
    ReachesItself(s, id);
    forall q | q in ReachableFrom(s, id) ensures q == id {
      var path :| IsPath(s, path) && path[0] == id && path[|path| - 1] == q;
      assert |path| > 1 ==> Edge(s, path[0], path[1]);
    }
  }

  /** Setting or clearing an entry page that exists keeps the world consistent and every edge. */
  lemma EntrySet(s: Store, n: int, e: Option<int>)
    requires Valid(s) && n in s.npcs && OptIn(e, s.pages.Keys)
    ensures Valid(WithEntry(s, n, e))
    ensures SameEdges(WithEntry(s, n, e), s)
  {
    var r := WithEntry(s, n, e);
    forall q, x ensures Edge(r, q, x) <==> Edge(s, q, x) {
      assert FailOf(r, x) == FailOf(s, x);
    }
  }

  /** The pages that deleting NPC `n`'s entry page removes: those reachable from it, if it has one. */
  ghost function EntryPages(s: Store, n: int): set<int>
    requires n in s.npcs
  {
    if s.npcs[n].entryPage.Some? then ReachableFrom(s, s.npcs[n].entryPage.value) else {}
  }

  /**
   * `s1` is `s0` after NPC `n` lost its entry page: the cascade delete removed every page
   * reachable from the entry page (none if there was none) and the NPC has no entry page.
   */
  ghost predicate EntryPageDropped(s0: Store, s1: Store, n: int)
    requires n in s0.npcs
  {
    && s1.npcs == s0.npcs[n := s0.npcs[n].(entryPage := None)]
    && Purged(s0, s1.(npcs := s0.npcs), EntryPages(s0, n))
  }

  /** Clearing an entry page after the cascade from it. */
  lemma EntryPageDroppedAfter(s: Store, mid: Store, n: int)
    requires n in s.npcs && s.npcs[n].entryPage.Some?
    requires Purged(s, mid, ReachableFrom(s, s.npcs[n].entryPage.value))
    ensures EntryPageDropped(s, WithEntry(mid, n, None), n)
  {
    assert WithEntry(mid, n, None).(npcs := s.npcs) == mid;
  }

  /** An NPC without entry page has nothing to drop. */
  lemma NothingDropped(s: Store, n: int)
    requires n in s.npcs && s.npcs[n].entryPage.None?
    ensures EntryPageDropped(s, s, n)
  {
    PurgedNothing(s);
    assert s.(npcs := s.npcs) == s;
  }

  /**
   * `OnPostCreateEntryPage` on an NPC without one: the world stays consistent, no edge
   * changes, and the NPC's entry page is the new page, which reaches only itself.
   */
  lemma EntryPageCreated(s: Store, n: int, id: int, pg: NpcPage)
    requires Valid(s) && n in s.npcs && id !in s.pages && Bare(pg)
    ensures Valid(WithEntry(WithNewPage(s, id, pg), n, Some(id)))
    ensures SameEdges(WithEntry(WithNewPage(s, id, pg), n, Some(id)), s)
    ensures EntryReaches(WithEntry(WithNewPage(s, id, pg), n, Some(id)), n, id)
    ensures ReachableFrom(WithEntry(WithNewPage(s, id, pg), n, Some(id)), id) == {id}
  {
    var s1 := WithNewPage(s, id, pg);
    NewPageAdded(s, id, pg);
    EntrySet(s1, n, Some(id));
    var r := WithEntry(s1, n, Some(id));
    ReachesItself(r, id);
    OnlyItself(r, id);
  }

  // ----- adding records -----

  /** `OnPostAddCheck`: check `id` joins the check list and the end of its page's list. */
  function WithCheck(s: Store, id: int, x: NpcCheck): Store
    requires x.page.Some? && x.page.value in s.pages
  {
    var q := x.page.value;
    s.(checks := s.checks[id := x], checkList := s.checkList + {id},
       pages := s.pages[q := s.pages[q].(checks := s.pages[q].checks + [id])])
  }

  /**
   * A new check without fail page keeps the world consistent and adds no edge; it is the
   * last of its page's checks and no other page changes.
   */
  lemma CheckAdded(s: Store, id: int, x: NpcCheck)
    requires Valid(s) && id !in s.checks && x.page.Some? && x.page.value in s.pages && x.failPage.None?
    ensures Valid(WithCheck(s, id, x))
    ensures SameEdges(WithCheck(s, id, x), s)
    ensures var r := WithCheck(s, id, x);
      && id in r.checkList && r.checks[id].page == x.page
      && r.pages[x.page.value].checks[|r.pages[x.page.value].checks| - 1] == id
      && (forall q :: q in s.pages && q != x.page.value ==> r.pages[q] == s.pages[q])
  {
    CheckAddedLinked(s, id, x);
    CheckAddedRefs(s, id, x);
    CheckAddedRecords(s, id, x);
    CheckAddedEdges(s, id, x);
  }

  lemma CheckAddedLinked(s: Store, id: int, x: NpcCheck)
    requires Valid(s) && id !in s.checks && x.page.Some? && x.page.value in s.pages && x.failPage.None?
    ensures PagesLinked(WithCheck(s, id, x)) && ListsKnown(WithCheck(s, id, x))
  {
    var q := x.page.value;
    var r := WithCheck(s, id, x);
    PageListsDistinct(s, q);
    assert id !in s.pages[q].checks;
    DistinctAppend(s.pages[q].checks, [id]);
    assert ListsDistinct(r.pages[q]);
  }

  lemma CheckAddedRefs(s: Store, id: int, x: NpcCheck)
    requires Valid(s) && id !in s.checks && x.page.Some? && x.page.value in s.pages && x.failPage.None?
    ensures BackRefsHold(WithCheck(s, id, x))
  {
    var r := WithCheck(s, id, x);
    forall q, c | q in r.pages && c in r.pages[q].checks ensures c in r.checks && r.checks[c].page == Some(q) {
      if c != id {
        assert c in s.pages[q].checks;
      }
    }
  }

  lemma CheckAddedRecords(s: Store, id: int, x: NpcCheck)
    requires Valid(s) && id !in s.checks && x.page.Some? && x.page.value in s.pages && x.failPage.None?
    ensures RecordsLinked(WithCheck(s, id, x))
  {
  }

  lemma CheckAddedEdges(s: Store, id: int, x: NpcCheck)
    requires Valid(s) && id !in s.checks && x.page.Some? && x.page.value in s.pages && x.failPage.None?
    ensures SameEdges(WithCheck(s, id, x), s)
  {
    var q := x.page.value;
    var r := WithCheck(s, id, x);
    forall a, y ensures Edge(r, a, y) <==> Edge(s, a, y) {
      if a == q {
        if i :| 0 <= i < |r.pages[a].checks| && FailOf(r, r.pages[a].checks[i]) == Some(y) {
          assert i < |s.pages[a].checks| && FailOf(s, s.pages[a].checks[i]) == Some(y);
        }
        if i :| 0 <= i < |s.pages[a].checks| && FailOf(s, s.pages[a].checks[i]) == Some(y) {
          assert r.pages[a].checks[i] == s.pages[a].checks[i];
        }
      } else if a in s.pages {
        assert r.pages[a] == s.pages[a];
      }
    }
  }

  /** `OnPostAddAction`: action `id` joins the action list and the end of its page's list. */
  function WithAction(s: Store, id: int, x: NpcAction): Store
    requires x.page.Some? && x.page.value in s.pages
  {
    var q := x.page.value;
    s.(actions := s.actions[id := x], actionList := s.actionList + {id},
       pages := s.pages[q := s.pages[q].(actions := s.pages[q].actions + [id])])
  }

  /**
   * A new action keeps the world consistent and adds no edge; it is the
   * last of its page's actions and no other page changes.
   */
  lemma ActionAdded(s: Store, id: int, x: NpcAction)
    requires Valid(s) && id !in s.actions && x.page.Some? && x.page.value in s.pages
    ensures Valid(WithAction(s, id, x))
    ensures SameEdges(WithAction(s, id, x), s)
    ensures var r := WithAction(s, id, x);
      && id in r.actionList && r.actions[id].page == x.page
      && r.pages[x.page.value].actions[|r.pages[x.page.value].actions| - 1] == id
      && (forall q :: q in s.pages && q != x.page.value ==> r.pages[q] == s.pages[q])
  {
    ActionAddedLinked(s, id, x);
    ActionAddedRefs(s, id, x);
    ActionAddedRecords(s, id, x);
    ActionAddedEdges(s, id, x);
  }

  lemma ActionAddedLinked(s: Store, id: int, x: NpcAction)
    requires Valid(s) && id !in s.actions && x.page.Some? && x.page.value in s.pages
    ensures PagesLinked(WithAction(s, id, x)) && ListsKnown(WithAction(s, id, x))
  {
    var q := x.page.value;
    var r := WithAction(s, id, x);
    PageListsDistinct(s, q);
    assert id !in s.pages[q].actions;
    DistinctAppend(s.pages[q].actions, [id]);
    assert ListsDistinct(r.pages[q]);
  }

  lemma ActionAddedRefs(s: Store, id: int, x: NpcAction)
    requires Valid(s) && id !in s.actions && x.page.Some? && x.page.value in s.pages
    ensures BackRefsHold(WithAction(s, id, x))
  {
    var r := WithAction(s, id, x);
    forall q, c | q in r.pages && c in r.pages[q].actions ensures c in r.actions && r.actions[c].page == Some(q) {
      if c != id {
        assert c in s.pages[q].actions;
      }
    }
  }

  lemma ActionAddedRecords(s: Store, id: int, x: NpcAction)
    requires Valid(s) && id !in s.actions && x.page.Some? && x.page.value in s.pages
    ensures RecordsLinked(WithAction(s, id, x))
  {
  }

  lemma ActionAddedEdges(s: Store, id: int, x: NpcAction)
    requires Valid(s) && id !in s.actions && x.page.Some? && x.page.value in s.pages
    ensures SameEdges(WithAction(s, id, x), s)
  {
    var q := x.page.value;
    var r := WithAction(s, id, x);
    forall a, y ensures Edge(r, a, y) <==> Edge(s, a, y) {
      if a in s.pages {
        assert r.pages[a].checks == s.pages[a].checks && r.pages[a].buttons == s.pages[a].buttons;
      }
    }
  }

  /** `OnPostAddButton`: button `id` joins the button list and the end of its page's list. */
  function WithButton(s: Store, id: int, x: NpcButton): Store
    requires x.page.Some? && x.page.value in s.pages
  {
    var q := x.page.value;
    s.(buttons := s.buttons[id := x], buttonList := s.buttonList + {id},
       pages := s.pages[q := s.pages[q].(buttons := s.pages[q].buttons + [id])])
  }

  /**
   * A new button without destination keeps the world consistent and adds no edge; it is the
   * last of its page's buttons and no other page changes.
   */
  lemma ButtonAdded(s: Store, id: int, x: NpcButton)
    requires Valid(s) && id !in s.buttons && x.page.Some? && x.page.value in s.pages && x.destinationPage.None?
    ensures Valid(WithButton(s, id, x))
    ensures SameEdges(WithButton(s, id, x), s)
    ensures var r := WithButton(s, id, x);
      && id in r.buttonList && r.buttons[id].page == x.page
      && r.pages[x.page.value].buttons[|r.pages[x.page.value].buttons| - 1] == id
      && (forall q :: q in s.pages && q != x.page.value ==> r.pages[q] == s.pages[q])
  {
    ButtonAddedLinked(s, id, x);
    ButtonAddedRefs(s, id, x);
    ButtonAddedRecords(s, id, x);
    ButtonAddedEdges(s, id, x);
  }

  lemma ButtonAddedLinked(s: Store, id: int, x: NpcButton)
    requires Valid(s) && id !in s.buttons && x.page.Some? && x.page.value in s.pages && x.destinationPage.None?
    ensures PagesLinked(WithButton(s, id, x)) && ListsKnown(WithButton(s, id, x))
  {
    var q := x.page.value;
    var r := WithButton(s, id, x);
    PageListsDistinct(s, q);
    assert id !in s.pages[q].buttons;
    DistinctAppend(s.pages[q].buttons, [id]);
    assert ListsDistinct(r.pages[q]);
  }

  lemma ButtonAddedRefs(s: Store, id: int, x: NpcButton)
    requires Valid(s) && id !in s.buttons && x.page.Some? && x.page.value in s.pages && x.destinationPage.None?
    ensures BackRefsHold(WithButton(s, id, x))
  {
    var r := WithButton(s, id, x);
    forall q, c | q in r.pages && c in r.pages[q].buttons ensures c in r.buttons && r.buttons[c].page == Some(q) {
      if c != id {
        assert c in s.pages[q].buttons;
      }
    }
  }

  lemma ButtonAddedRecords(s: Store, id: int, x: NpcButton)
    requires Valid(s) && id !in s.buttons && x.page.Some? && x.page.value in s.pages && x.destinationPage.None?
    ensures RecordsLinked(WithButton(s, id, x))
  {
  }

  lemma ButtonAddedEdges(s: Store, id: int, x: NpcButton)
    requires Valid(s) && id !in s.buttons && x.page.Some? && x.page.value in s.pages && x.destinationPage.None?
    ensures SameEdges(WithButton(s, id, x), s)
  {
    var q := x.page.value;
    var r := WithButton(s, id, x);
    forall a, y ensures Edge(r, a, y) <==> Edge(s, a, y) {
      if a == q {
        if i :| 0 <= i < |r.pages[a].buttons| && DestOf(r, r.pages[a].buttons[i]) == Some(y) {
          assert i < |s.pages[a].buttons| && DestOf(s, s.pages[a].buttons[i]) == Some(y);
        }
        if i :| 0 <= i < |s.pages[a].buttons| && DestOf(s, s.pages[a].buttons[i]) == Some(y) {
          assert r.pages[a].buttons[i] == s.pages[a].buttons[i];
        }
      } else if a in s.pages {
        assert r.pages[a] == s.pages[a];
      }
    }
  }

  /** `OnPostAddGood`: good `id` joins the good list and the end of its page's list. */
  function WithGood(s: Store, id: int, x: NpcGood): Store
    requires x.page.Some? && x.page.value in s.pages
  {
    var q := x.page.value;
    s.(goods := s.goods[id := x], goodList := s.goodList + {id},
       pages := s.pages[q := s.pages[q].(goods := s.pages[q].goods + [id])])
  }

  /**
   * A new good keeps the world consistent and adds no edge; it is the
   * last of its page's goods and no other page changes.
   */
  lemma GoodAdded(s: Store, id: int, x: NpcGood)
    requires Valid(s) && id !in s.goods && x.page.Some? && x.page.value in s.pages
    ensures Valid(WithGood(s, id, x))
    ensures SameEdges(WithGood(s, id, x), s)
    ensures var r := WithGood(s, id, x);
      && id in r.goodList && r.goods[id].page == x.page
      && r.pages[x.page.value].goods[|r.pages[x.page.value].goods| - 1] == id
      && (forall q :: q in s.pages && q != x.page.value ==> r.pages[q] == s.pages[q])
  {
    GoodAddedLinked(s, id, x);
    GoodAddedRefs(s, id, x);
    GoodAddedRecords(s, id, x);
    GoodAddedEdges(s, id, x);
  }

  lemma GoodAddedLinked(s: Store, id: int, x: NpcGood)
    requires Valid(s) && id !in s.goods && x.page.Some? && x.page.value in s.pages
    ensures PagesLinked(WithGood(s, id, x)) && ListsKnown(WithGood(s, id, x))
  {
    var q := x.page.value;
    var r := WithGood(s, id, x);
    PageListsDistinct(s, q);
    assert id !in s.pages[q].goods;
    DistinctAppend(s.pages[q].goods, [id]);
    assert ListsDistinct(r.pages[q]);
  }

  lemma GoodAddedRefs(s: Store, id: int, x: NpcGood)
    requires Valid(s) && id !in s.goods && x.page.Some? && x.page.value in s.pages
    ensures BackRefsHold(WithGood(s, id, x))
  {
    var r := WithGood(s, id, x);
    forall q, c | q in r.pages && c in r.pages[q].goods ensures c in r.goods && r.goods[c].page == Some(q) {
      if c != id {
        assert c in s.pages[q].goods;
      }
    }
  }

  lemma GoodAddedRecords(s: Store, id: int, x: NpcGood)
    requires Valid(s) && id !in s.goods && x.page.Some? && x.page.value in s.pages
    ensures RecordsLinked(WithGood(s, id, x))
  {
  }

  lemma GoodAddedEdges(s: Store, id: int, x: NpcGood)
    requires Valid(s) && id !in s.goods && x.page.Some? && x.page.value in s.pages
    ensures SameEdges(WithGood(s, id, x), s)
  {
    var q := x.page.value;
    var r := WithGood(s, id, x);
    forall a, y ensures Edge(r, a, y) <==> Edge(s, a, y) {
      if a in s.pages {
        assert r.pages[a].checks == s.pages[a].checks && r.pages[a].buttons == s.pages[a].buttons;
      }
    }
  }

  // ----- deleting records -----

  /** `pg` is `orig` with some records dropped from its lists, each list still without repetitions. */
  ghost predicate Thinned(pg: NpcPage, orig: NpcPage)
  {
    && pg.successPage == orig.successPage
    && (forall y :: y in pg.checks ==> y in orig.checks) && (forall y :: y in pg.actions ==> y in orig.actions)
    && (forall y :: y in pg.buttons ==> y in orig.buttons) && (forall y :: y in pg.goods ==> y in orig.goods)
    && ListsDistinct(pg)
  }

  /** `s1` is `s0` with records dropped from page lists and global lists; no record changed. */
  ghost predicate Detached(s0: Store, s1: Store)
  {
    && s1.(pages := s0.pages, checkList := s0.checkList, actionList := s0.actionList,
           buttonList := s0.buttonList, goodList := s0.goodList) == s0
    && s1.pages.Keys == s0.pages.Keys
    && (forall q :: q in s0.pages ==> Thinned(s1.pages[q], s0.pages[q]))
    && s1.checkList <= s0.checkList && s1.actionList <= s0.actionList
    && s1.buttonList <= s0.buttonList && s1.goodList <= s0.goodList
  }

  /** Dropping records from lists keeps the world consistent and can only remove edges. */
  lemma DetachedValid(s0: Store, s1: Store)
    requires Valid(s0) && Detached(s0, s1)
    ensures Valid(s1) && FewerEdges(s1, s0)
  {
    DetachedRefs(s0, s1);
    forall q, y | Edge(s1, q, y) ensures Edge(s0, q, y) {
      assert Thinned(s1.pages[q], s0.pages[q]);
      if i :| 0 <= i < |s1.pages[q].checks| && FailOf(s1, s1.pages[q].checks[i]) == Some(y) {
        assert s1.pages[q].checks[i] in s0.pages[q].checks;
      }
      if i :| 0 <= i < |s1.pages[q].buttons| && DestOf(s1, s1.pages[q].buttons[i]) == Some(y) {
        assert s1.pages[q].buttons[i] in s0.pages[q].buttons;
      }
    }
  }

  lemma DetachedRefs(s0: Store, s1: Store)
    requires Valid(s0) && Detached(s0, s1)
    ensures BackRefsHold(s1)
  {
    forall q, c | q in s1.pages && c in s1.pages[q].checks ensures c in s1.checks && s1.checks[c].page == Some(q) {
      assert Thinned(s1.pages[q], s0.pages[q]);
      CheckBackRef(s0, q, c);
    }
    forall q, b | q in s1.pages && b in s1.pages[q].buttons ensures b in s1.buttons && s1.buttons[b].page == Some(q) {
      assert Thinned(s1.pages[q], s0.pages[q]);
      ButtonBackRef(s0, q, b);
    }
    forall q, a | q in s1.pages && a in s1.pages[q].actions ensures a in s1.actions && s1.actions[a].page == Some(q) {
      assert Thinned(s1.pages[q], s0.pages[q]);
      assert a in s0.pages[q].actions;
    }
    forall q, g | q in s1.pages && g in s1.pages[q].goods ensures g in s1.goods && s1.goods[g].page == Some(q) {
      assert Thinned(s1.pages[q], s0.pages[q]);
      assert g in s0.pages[q].goods;
    }
  }

  /** `OnPostDeleteCheck`: `check.Page?.Checks?.Remove(check)`, then the check leaves the check list. */
  function WithoutCheck(s: Store, x: int): Store
    requires x in s.checks
  {
    var o := s.checks[x].page;
    if o.Some? && o.value in s.pages then
      s.(pages := s.pages[o.value := s.pages[o.value].(checks := RemoveFirst(s.pages[o.value].checks, x))],
         checkList := s.checkList - {x})
    else
      s.(checkList := s.checkList - {x})
  }

  /**
   * Deleting a check keeps the world consistent and adds no edge; the check is in no list
   * any more, and every page lists what it listed before except that check, in the same order.
   */
  lemma CheckDeleted(s: Store, x: int)
    requires Valid(s) && x in s.checks
    ensures Valid(WithoutCheck(s, x)) && FewerEdges(WithoutCheck(s, x), s)
    ensures WithoutCheck(s, x).checkList == s.checkList - {x}
    ensures WithoutCheck(s, x).pages.Keys == s.pages.Keys
    ensures forall q :: q in s.pages ==> WithoutCheck(s, x).pages[q] == s.pages[q].(checks := Without(s.pages[q].checks, x))
  {
    var r := WithoutCheck(s, x);
    CheckDetached(s, x);
    CheckThinned(s, x);
    DetachedValid(s, r);
  }

  lemma CheckThinned(s: Store, x: int)
    requires Valid(s) && x in s.checks
    requires WithoutCheck(s, x).pages.Keys == s.pages.Keys
    requires forall q :: q in s.pages ==> WithoutCheck(s, x).pages[q] == s.pages[q].(checks := Without(s.pages[q].checks, x))
    ensures Detached(s, WithoutCheck(s, x))
  {
    var r := WithoutCheck(s, x);
    forall q | q in s.pages ensures Thinned(r.pages[q], s.pages[q]) {
      PageListsDistinct(s, q);
      CheckDropped(s.pages[q], x);
    }
  }

  lemma CheckDropped(pg: NpcPage, x: int)
    requires ListsDistinct(pg)
    ensures Thinned(pg.(checks := Without(pg.checks, x)), pg)
  {
    RemoveFirstDistinct(pg.checks, x);
  }

  lemma CheckDetached(s: Store, x: int)
    requires Valid(s) && x in s.checks
    ensures WithoutCheck(s, x).pages.Keys == s.pages.Keys
    ensures forall q :: q in s.pages ==> WithoutCheck(s, x).pages[q] == s.pages[q].(checks := Without(s.pages[q].checks, x))
  {
    var r := WithoutCheck(s, x);
    forall q | q in s.pages ensures r.pages[q] == s.pages[q].(checks := Without(s.pages[q].checks, x)) {
      PageListsDistinct(s, q);
      RemoveFirstDistinct(s.pages[q].checks, x);
      if s.checks[x].page != Some(q) {
        assert x !in s.pages[q].checks;
        WithoutAbsent(s.pages[q].checks, x);
        assert s.pages[q].(checks := s.pages[q].checks) == s.pages[q];
      }
    }
  }

  /** `OnPostDeleteAction`: `action.Page?.Actions?.Remove(action)`, then the action leaves the action list. */
  function WithoutAction(s: Store, x: int): Store
    requires x in s.actions
  {
    var o := s.actions[x].page;
    if o.Some? && o.value in s.pages then
      s.(pages := s.pages[o.value := s.pages[o.value].(actions := RemoveFirst(s.pages[o.value].actions, x))],
         actionList := s.actionList - {x})
    else
      s.(actionList := s.actionList - {x})
  }

  /**
   * Deleting a action keeps the world consistent and adds no edge; the action is in no list
   * any more, and every page lists what it listed before except that action, in the same order.
   */
  lemma ActionDeleted(s: Store, x: int)
    requires Valid(s) && x in s.actions
    ensures Valid(WithoutAction(s, x)) && FewerEdges(WithoutAction(s, x), s)
    ensures WithoutAction(s, x).actionList == s.actionList - {x}
    ensures WithoutAction(s, x).pages.Keys == s.pages.Keys
    ensures forall q :: q in s.pages ==> WithoutAction(s, x).pages[q] == s.pages[q].(actions := Without(s.pages[q].actions, x))
  {
    var r := WithoutAction(s, x);
    ActionDetached(s, x);
    ActionThinned(s, x);
    DetachedValid(s, r);
  }

  lemma ActionThinned(s: Store, x: int)
    requires Valid(s) && x in s.actions
    requires WithoutAction(s, x).pages.Keys == s.pages.Keys
    requires forall q :: q in s.pages ==> WithoutAction(s, x).pages[q] == s.pages[q].(actions := Without(s.pages[q].actions, x))
    ensures Detached(s, WithoutAction(s, x))
  {
    var r := WithoutAction(s, x);
    forall q | q in s.pages ensures Thinned(r.pages[q], s.pages[q]) {
      PageListsDistinct(s, q);
      ActionDropped(s.pages[q], x);
    }
  }

  lemma ActionDropped(pg: NpcPage, x: int)
    requires ListsDistinct(pg)
    ensures Thinned(pg.(actions := Without(pg.actions, x)), pg)
  {
    RemoveFirstDistinct(pg.actions, x);
  }

  lemma ActionDetached(s: Store, x: int)
    requires Valid(s) && x in s.actions
    ensures WithoutAction(s, x).pages.Keys == s.pages.Keys
    ensures forall q :: q in s.pages ==> WithoutAction(s, x).pages[q] == s.pages[q].(actions := Without(s.pages[q].actions, x))
  {
    var r := WithoutAction(s, x);
    forall q | q in s.pages ensures r.pages[q] == s.pages[q].(actions := Without(s.pages[q].actions, x)) {
      PageListsDistinct(s, q);
      RemoveFirstDistinct(s.pages[q].actions, x);
      if s.actions[x].page != Some(q) {
        assert x !in s.pages[q].actions;
        WithoutAbsent(s.pages[q].actions, x);
        assert s.pages[q].(actions := s.pages[q].actions) == s.pages[q];
      }
    }
  }

  /** `OnPostDeleteButton`: `button.Page?.Buttons?.Remove(button)`, then the button leaves the button list. */
  function WithoutButton(s: Store, x: int): Store
    requires x in s.buttons
  {
    var o := s.buttons[x].page;
    if o.Some? && o.value in s.pages then
      s.(pages := s.pages[o.value := s.pages[o.value].(buttons := RemoveFirst(s.pages[o.value].buttons, x))],
         buttonList := s.buttonList - {x})
    else
      s.(buttonList := s.buttonList - {x})
  }

  /**
   * Deleting a button keeps the world consistent and adds no edge; the button is in no list
   * any more, and every page lists what it listed before except that button, in the same order.
   */
  lemma ButtonDeleted(s: Store, x: int)
    requires Valid(s) && x in s.buttons
    ensures Valid(WithoutButton(s, x)) && FewerEdges(WithoutButton(s, x), s)
    ensures WithoutButton(s, x).buttonList == s.buttonList - {x}
    ensures WithoutButton(s, x).pages.Keys == s.pages.Keys
    ensures forall q :: q in s.pages ==> WithoutButton(s, x).pages[q] == s.pages[q].(buttons := Without(s.pages[q].buttons, x))
  {
    var r := WithoutButton(s, x);
    ButtonDetached(s, x);
    ButtonThinned(s, x);
    DetachedValid(s, r);
  }

  lemma ButtonThinned(s: Store, x: int)
    requires Valid(s) && x in s.buttons
    requires WithoutButton(s, x).pages.Keys == s.pages.Keys
    requires forall q :: q in s.pages ==> WithoutButton(s, x).pages[q] == s.pages[q].(buttons := Without(s.pages[q].buttons, x))
    ensures Detached(s, WithoutButton(s, x))
  {
    var r := WithoutButton(s, x);
    forall q | q in s.pages ensures Thinned(r.pages[q], s.pages[q]) {
      PageListsDistinct(s, q);
      ButtonDropped(s.pages[q], x);
    }
  }

  lemma ButtonDropped(pg: NpcPage, x: int)
    requires ListsDistinct(pg)
    ensures Thinned(pg.(buttons := Without(pg.buttons, x)), pg)
  {
    RemoveFirstDistinct(pg.buttons, x);
  }

  lemma ButtonDetached(s: Store, x: int)
    requires Valid(s) && x in s.buttons
    ensures WithoutButton(s, x).pages.Keys == s.pages.Keys
    ensures forall q :: q in s.pages ==> WithoutButton(s, x).pages[q] == s.pages[q].(buttons := Without(s.pages[q].buttons, x))
  {
    var r := WithoutButton(s, x);
    forall q | q in s.pages ensures r.pages[q] == s.pages[q].(buttons := Without(s.pages[q].buttons, x)) {
      PageListsDistinct(s, q);
      RemoveFirstDistinct(s.pages[q].buttons, x);
      if s.buttons[x].page != Some(q) {
        assert x !in s.pages[q].buttons;
        WithoutAbsent(s.pages[q].buttons, x);
        assert s.pages[q].(buttons := s.pages[q].buttons) == s.pages[q];
      }
    }
  }

  /** `OnPostDeleteGood`: `good.Page?.Goods?.Remove(good)`, then the good leaves the good list. */
  function WithoutGood(s: Store, x: int): Store
    requires x in s.goods
  {
    var o := s.goods[x].page;
    if o.Some? && o.value in s.pages then
      s.(pages := s.pages[o.value := s.pages[o.value].(goods := RemoveFirst(s.pages[o.value].goods, x))],
         goodList := s.goodList - {x})
    else
      s.(goodList := s.goodList - {x})
  }

  /**
   * Deleting a good keeps the world consistent and adds no edge; the good is in no list
   * any more, and every page lists what it listed before except that good, in the same order.
   */
  lemma GoodDeleted(s: Store, x: int)
    requires Valid(s) && x in s.goods
    ensures Valid(WithoutGood(s, x)) && FewerEdges(WithoutGood(s, x), s)
    ensures WithoutGood(s, x).goodList == s.goodList - {x}
    ensures WithoutGood(s, x).pages.Keys == s.pages.Keys
    ensures forall q :: q in s.pages ==> WithoutGood(s, x).pages[q] == s.pages[q].(goods := Without(s.pages[q].goods, x))
  {
    var r := WithoutGood(s, x);
    GoodDetached(s, x);
    GoodThinned(s, x);
    DetachedValid(s, r);
  }

  lemma GoodThinned(s: Store, x: int)
    requires Valid(s) && x in s.goods
    requires WithoutGood(s, x).pages.Keys == s.pages.Keys
    requires forall q :: q in s.pages ==> WithoutGood(s, x).pages[q] == s.pages[q].(goods := Without(s.pages[q].goods, x))
    ensures Detached(s, WithoutGood(s, x))
  {
    var r := WithoutGood(s, x);
    forall q | q in s.pages ensures Thinned(r.pages[q], s.pages[q]) {
      PageListsDistinct(s, q);
      GoodDropped(s.pages[q], x);
    }
  }

  lemma GoodDropped(pg: NpcPage, x: int)
    requires ListsDistinct(pg)
    ensures Thinned(pg.(goods := Without(pg.goods, x)), pg)
  {
    RemoveFirstDistinct(pg.goods, x);
  }

  lemma GoodDetached(s: Store, x: int)
    requires Valid(s) && x in s.goods
    ensures WithoutGood(s, x).pages.Keys == s.pages.Keys
    ensures forall q :: q in s.pages ==> WithoutGood(s, x).pages[q] == s.pages[q].(goods := Without(s.pages[q].goods, x))
  {
    var r := WithoutGood(s, x);
    forall q | q in s.pages ensures r.pages[q] == s.pages[q].(goods := Without(s.pages[q].goods, x)) {
      PageListsDistinct(s, q);
      RemoveFirstDistinct(s.pages[q].goods, x);
      if s.goods[x].page != Some(q) {
        assert x !in s.pages[q].goods;
        WithoutAbsent(s.pages[q].goods, x);
        assert s.pages[q].(goods := s.pages[q].goods) == s.pages[q];
      }
    }
  }

  // ----- buttons and goods edited in place -----

  /** `OnPostUpdateButton`: the button's id and destination are overwritten. */
  function Retarget(s: Store, b: int, buttonId: int, dest: Option<int>): Store
    requires b in s.buttons
  {
    s.(buttons := s.buttons[b := s.buttons[b].(buttonId := buttonId, destinationPage := dest)])
  }

  /**
   * Pointing a button at an existing page (or at none) keeps the world consistent; only the
   * edges of the button's owner can change, and the owner now has an edge to the destination.
   */
  lemma ButtonRetargeted(s: Store, b: int, buttonId: int, dest: Option<int>)
    requires Valid(s) && b in s.buttons && OptIn(dest, s.pages.Keys)
    ensures Valid(Retarget(s, b, buttonId, dest))
    ensures forall q, y :: s.buttons[b].page != Some(q) ==> (Edge(Retarget(s, b, buttonId, dest), q, y) <==> Edge(s, q, y))
    ensures var o := s.buttons[b].page;
      o.Some? && o.value in s.pages && b in s.pages[o.value].buttons && dest.Some? ==>
      Edge(Retarget(s, b, buttonId, dest), o.value, dest.value)
  {
    var r := Retarget(s, b, buttonId, dest);
    assert CheckRefsHold(r) && ButtonRefsHold(r);
    forall q, y | s.buttons[b].page != Some(q) ensures Edge(r, q, y) <==> Edge(s, q, y) {
      if q in s.pages {
        assert b !in s.pages[q].buttons;
        forall c ensures DestOf(r, c) == DestOf(s, c) || c == b {
        }
      }
    }
    var o := s.buttons[b].page;
    if o.Some? && o.value in s.pages && b in s.pages[o.value].buttons && dest.Some? {
      var i :| 0 <= i < |s.pages[o.value].buttons| && s.pages[o.value].buttons[i] == b;
      assert DestOf(r, r.pages[o.value].buttons[i]) == dest;
    }
  }

  /** `OnPostUpdateGood`: the good's item and clamped rate are overwritten. */
  function Reprice(s: Store, g: int, item: Option<int>, rate: real): Store
    requires g in s.goods
  {
    s.(goods := s.goods[g := s.goods[g].(item := item, rate := ClampRate(rate))])
  }

  /** Editing a good keeps the world consistent and every edge, and leaves it a positive rate. */
  lemma GoodRepriced(s: Store, g: int, item: Option<int>, rate: real)
    requires Valid(s) && g in s.goods
    ensures Valid(Reprice(s, g, item, rate)) && SameEdges(Reprice(s, g, item, rate), s)
    ensures Reprice(s, g, item, rate).goods[g].rate > 0.0
    ensures rate > 0.0 ==> Reprice(s, g, item, rate).goods[g].rate == rate
  {
    var r := Reprice(s, g, item, rate);
    assert GoodRefsHold(r);
    forall q, y ensures Edge(r, q, y) <==> Edge(s, q, y) {
      assert FailOf(r, y) == FailOf(s, y);
    }
  }

  /**
   * `OnPostCreateButtonDestPage` on a button without destination: the world stays
   * consistent, the new page is registered and reaches only itself, and the button's
   * owner gains an edge to it.
   */
  lemma DestPageCreated(s: Store, b: int, id: int, pg: NpcPage)
    requires Valid(s) && b in s.buttons && id !in s.pages && Bare(pg)
    ensures Valid(Retarget(WithNewPage(s, id, pg), b, s.buttons[b].buttonId, Some(id)))
    ensures Located(Retarget(WithNewPage(s, id, pg), b, s.buttons[b].buttonId, Some(id)), id) == Some(id)
    ensures ReachableFrom(Retarget(WithNewPage(s, id, pg), b, s.buttons[b].buttonId, Some(id)), id) == {id}
    ensures var o := s.buttons[b].page;
      o.Some? && b in s.pages[o.value].buttons ==>
      Edge(Retarget(WithNewPage(s, id, pg), b, s.buttons[b].buttonId, Some(id)), o.value, id)
  {
    var s1 := WithNewPage(s, id, pg);
    NewPageAdded(s, id, pg);
    ButtonRetargeted(s1, b, s.buttons[b].buttonId, Some(id));
    var r := Retarget(s1, b, s.buttons[b].buttonId, Some(id));
    OnlyItself(r, id);
  }

  // ----- the handlers' invariant: a consistent world and fresh counters -----

  /** Adding a check under the check counter and advancing that counter keeps the invariant. */
  lemma CheckAddedSound(s: Store, x: NpcCheck, n: Counters, n': Counters)
    requires Consistent(s, n) && x.page.Some? && x.page.value in s.pages && x.failPage.None?
    requires n' == n.(check := n.check + 1)
    ensures Consistent(WithCheck(s, n.check, x), n')
  {
    CheckAddedLinked(s, n.check, x);
    CheckAddedRefs(s, n.check, x);
    CheckAddedRecords(s, n.check, x);
  }

  /** Adding an action under the action counter and advancing that counter keeps the invariant. */
  lemma ActionAddedSound(s: Store, x: NpcAction, n: Counters, n': Counters)
    requires Consistent(s, n) && x.page.Some? && x.page.value in s.pages
    requires n' == n.(action := n.action + 1)
    ensures Consistent(WithAction(s, n.action, x), n')
  {
    ActionAddedLinked(s, n.action, x);
    ActionAddedRefs(s, n.action, x);
    ActionAddedRecords(s, n.action, x);
  }

  /** Adding a button under the button counter and advancing that counter keeps the invariant. */
  lemma ButtonAddedSound(s: Store, x: NpcButton, n: Counters, n': Counters)
    requires Consistent(s, n) && x.page.Some? && x.page.value in s.pages && x.destinationPage.None?
    requires n' == n.(button := n.button + 1)
    ensures Consistent(WithButton(s, n.button, x), n')
  {
    ButtonAddedLinked(s, n.button, x);
    ButtonAddedRefs(s, n.button, x);
    ButtonAddedRecords(s, n.button, x);
  }

  /** Adding a good under the good counter and advancing that counter keeps the invariant. */
  lemma GoodAddedSound(s: Store, x: NpcGood, n: Counters, n': Counters)
    requires Consistent(s, n) && x.page.Some? && x.page.value in s.pages
    requires n' == n.(good := n.good + 1)
    ensures Consistent(WithGood(s, n.good, x), n')
  {
    GoodAddedLinked(s, n.good, x);
    GoodAddedRefs(s, n.good, x);
    GoodAddedRecords(s, n.good, x);
  }

  /** Deleting a listed check keeps the invariant. */
  lemma CheckDeletedSound(s: Store, x: int, n: Counters)
    requires Consistent(s, n) && x in s.checkList
    ensures Consistent(WithoutCheck(s, x), n)
  {
    CheckDeleted(s, x);
    CheckDeletedBelow(s, x, n);
  }

  lemma CheckDeletedBelow(s: Store, x: int, n: Counters)
    requires Below(s, n) && x in s.checks
    ensures Below(WithoutCheck(s, x), n)
  {
  }

  /** Deleting a listed action keeps the invariant. */
  lemma ActionDeletedSound(s: Store, x: int, n: Counters)
    requires Consistent(s, n) && x in s.actionList
    ensures Consistent(WithoutAction(s, x), n)
  {
    ActionDeleted(s, x);
    ActionDeletedBelow(s, x, n);
  }

  lemma ActionDeletedBelow(s: Store, x: int, n: Counters)
    requires Below(s, n) && x in s.actions
    ensures Below(WithoutAction(s, x), n)
  {
  }

  /** Deleting a listed button keeps the invariant. */
  lemma ButtonDeletedSound(s: Store, x: int, n: Counters)
    requires Consistent(s, n) && x in s.buttonList
    ensures Consistent(WithoutButton(s, x), n)
  {
    ButtonDeleted(s, x);
    ButtonDeletedBelow(s, x, n);
  }

  lemma ButtonDeletedBelow(s: Store, x: int, n: Counters)
    requires Below(s, n) && x in s.buttons
    ensures Below(WithoutButton(s, x), n)
  {
  }

  /** Deleting a listed good keeps the invariant. */
  lemma GoodDeletedSound(s: Store, x: int, n: Counters)
    requires Consistent(s, n) && x in s.goodList
    ensures Consistent(WithoutGood(s, x), n)
  {
    GoodDeleted(s, x);
    GoodDeletedBelow(s, x, n);
  }

  lemma GoodDeletedBelow(s: Store, x: int, n: Counters)
    requires Below(s, n) && x in s.goods
    ensures Below(WithoutGood(s, x), n)
  {
  }

  /** Editing a listed button, with a destination that is nothing or a page, keeps the invariant. */
  lemma ButtonRetargetedSound(s: Store, b: int, buttonId: int, dest: Option<int>, n: Counters)
    requires Consistent(s, n) && b in s.buttonList && OptIn(dest, s.pages.Keys)
    ensures Consistent(Retarget(s, b, buttonId, dest), n)
  {
    ButtonRetargeted(s, b, buttonId, dest);
  }

  /** Editing a listed good keeps the invariant. */
  lemma GoodRepricedSound(s: Store, g: int, item: Option<int>, rate: real, n: Counters)
    requires Consistent(s, n) && g in s.goodList
    ensures Consistent(Reprice(s, g, item, rate), n)
  {
    GoodRepriced(s, g, item, rate);
  }

  /** A bare entry page under the page counter, with that counter advanced, keeps the invariant. */
  lemma EntryPageCreatedSound(s: Store, npc: int, pg: NpcPage, n: Counters, n': Counters)
    requires Consistent(s, n) && npc in s.npcs && Bare(pg)
    requires n' == n.(page := n.page + 1)
    ensures Consistent(WithEntry(WithNewPage(s, n.page, pg), npc, Some(n.page)), n')
  {
    EntryPageCreated(s, npc, n.page, pg);
  }

  /** A bare destination page under the page counter, with that counter advanced, keeps the invariant. */
  lemma DestPageCreatedSound(s: Store, b: int, pg: NpcPage, n: Counters, n': Counters)
    requires Consistent(s, n) && b in s.buttonList && Bare(pg)
    requires n' == n.(page := n.page + 1)
    ensures Consistent(Retarget(WithNewPage(s, n.page, pg), b, s.buttons[b].buttonId, Some(n.page)), n')
  {
    DestPageCreated(s, b, n.page, pg);
  }

  /** The cascade delete keeps the invariant. */
  lemma PurgedSound(s: Store, n: Counters, s': Store, D: set<int>)
    requires Consistent(s, n) && Valid(s') && Purged(s, s', D)
    ensures Consistent(s', n)
  {
  }

  /** Clearing an NPC's entry page keeps the invariant. */
  lemma EntryClearedSound(s: Store, npc: int, n: Counters)
    requires Consistent(s, n) && npc in s.npcs
    ensures Consistent(WithEntry(s, npc, None), n)
  {
    EntrySet(s, npc, None);
  }

  /** Taking an NPC off the NPC list keeps the invariant; afterwards the NPC is in the list no more. */
  lemma NpcRemovedSound(s: Store, npc: int, n: Counters)
    requires Consistent(s, n)
    ensures Consistent(s.(npcList := RemoveFirst(s.npcList, npc)), n)
    ensures RemoveFirst(s.npcList, npc) == Without(s.npcList, npc) && npc !in RemoveFirst(s.npcList, npc)
  {
    RemoveFirstDistinct(s.npcList, npc);
    var r := s.(npcList := RemoveFirst(s.npcList, npc));
    forall i | 0 <= i < |r.npcList| ensures r.npcList[i] in r.npcs {
      assert r.npcList[i] in s.npcList;
    }
  }
}
