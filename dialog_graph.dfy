/**
 * The NPC dialogue-page graph as an arena. Every record ever created stays in its heap
 * map, keyed by its Index; the `...List` sets stand for the global `Binding` lists, so a
 * record can leave its list while references to it (now dangling) remain.
 */
module DialogGraph {
  import opened Common

  /** `NPCPage`: text plus the outgoing success edge and the four owned record lists. */
  datatype NpcPage = NpcPage(
    description: string, dialogType: int, say: string, arguments: string,
    successPage: Option<int>,
    checks: seq<int>, actions: seq<int>, buttons: seq<int>, goods: seq<int>)

  /** `NPCCheck`: a condition; `failPage` is an edge of the graph, `page` the owner back-reference. */
  datatype NpcCheck = NpcCheck(
    page: Option<int>, checkType: int, operator: int, stringParameter1: string,
    intParameter1: int, intParameter2: int, itemParameter1: Option<int>,
    failPage: Option<int>)

  /** `NPCAction`: an effect; it has no outgoing edge. */
  datatype NpcAction = NpcAction(
    page: Option<int>, actionType: int, stringParameter1: string,
    intParameter1: int, intParameter2: int, itemParameter1: Option<int>,
    mapParameter1: Option<int>)

  /** `NPCButton`: a choice; `destinationPage` is an edge of the graph. */
  datatype NpcButton = NpcButton(page: Option<int>, buttonId: int, destinationPage: Option<int>)

  /** `NPCGood`: an offer; `rate` is a C# decimal. */
  datatype NpcGood = NpcGood(page: Option<int>, item: Option<int>, rate: real)

  /** `NPCInfo`: an NPC definition and its optional entry page. */
  datatype NpcInfo = NpcInfo(npcName: string, image: int, entryPage: Option<int>)

  /** A snapshot of the part of the world the NPC handlers touch. */
  datatype Store = Store(
    pages: map<int, NpcPage>, checks: map<int, NpcCheck>, actions: map<int, NpcAction>,
    buttons: map<int, NpcButton>, goods: map<int, NpcGood>, npcs: map<int, NpcInfo>,
    pageList: set<int>, checkList: set<int>, actionList: set<int>,
    buttonList: set<int>, goodList: set<int>, npcList: seq<int>)

  /** A page after the cascade delete has visited it: no success edge and empty lists. */
  function Cleared(pg: NpcPage): (r: NpcPage)
    ensures r.successPage.None? && r.checks == [] && r.actions == [] && r.buttons == [] && r.goods == []
    ensures r.description == pg.description && r.say == pg.say && r.dialogType == pg.dialogType
  {
    pg.(successPage := None, checks := [], actions := [], buttons := [], goods := [])
  }

  ghost predicate OptIn(o: Option<int>, keys: set<int>)
  {
    o.Some? ==> o.value in keys
  }

  /**
   * The world's consistency: every reference leads to a record that exists, every record
   * in a page's list points back to that page, and the lists hold known records only.
   */
  ghost predicate Valid(s: Store)
  {
    PagesLinked(s) && BackRefsHold(s) && RecordsLinked(s) && ListsKnown(s)
  }

  /** Success edges lead into the heap and no page lists a record twice. */
  ghost predicate PagesLinked(s: Store)
  {
    && (forall q :: q in s.pages ==> OptIn(s.pages[q].successPage, s.pages.Keys))
    && (forall q :: q in s.pages ==> ListsDistinct(s.pages[q]))
  }

  /** Every record a page lists exists and names that page as its owner. */
  ghost predicate BackRefsHold(s: Store)
  {
    CheckRefsHold(s) && ButtonRefsHold(s) && ActionRefsHold(s) && GoodRefsHold(s)
  }

  ghost predicate CheckRefsHold(s: Store)
  {
    forall q, c :: q in s.pages && c in s.pages[q].checks ==> c in s.checks && s.checks[c].page == Some(q)
  }

  ghost predicate ButtonRefsHold(s: Store)
  {
    forall q, b :: q in s.pages && b in s.pages[q].buttons ==> b in s.buttons && s.buttons[b].page == Some(q)
  }

  ghost predicate ActionRefsHold(s: Store)
  {
    forall q, a :: q in s.pages && a in s.pages[q].actions ==> a in s.actions && s.actions[a].page == Some(q)
  }

  ghost predicate GoodRefsHold(s: Store)
  {
    forall q, g :: q in s.pages && g in s.pages[q].goods ==> g in s.goods && s.goods[g].page == Some(q)
  }

  /** Fail pages, destinations, owners and entry pages lead into the page heap. */
  ghost predicate RecordsLinked(s: Store)
  {
    && (forall c :: c in s.checks ==> OptIn(s.checks[c].failPage, s.pages.Keys) && OptIn(s.checks[c].page, s.pages.Keys))
    && (forall b :: b in s.buttons ==> OptIn(s.buttons[b].destinationPage, s.pages.Keys) && OptIn(s.buttons[b].page, s.pages.Keys))
    && (forall a :: a in s.actions ==> OptIn(s.actions[a].page, s.pages.Keys))
    && (forall g :: g in s.goods ==> OptIn(s.goods[g].page, s.pages.Keys))
    && (forall n :: n in s.npcs ==> OptIn(s.npcs[n].entryPage, s.pages.Keys))
  }

  /** The global lists hold known records; the NPC list holds known NPCs, each once. */
  ghost predicate ListsKnown(s: Store)
  {
    && s.pageList <= s.pages.Keys && s.checkList <= s.checks.Keys && s.actionList <= s.actions.Keys
    && s.buttonList <= s.buttons.Keys && s.goodList <= s.goods.Keys
    && (forall i :: 0 <= i < |s.npcList| ==> s.npcList[i] in s.npcs)
    && Distinct(s.npcList)
  }

  /** A page's lists never hold the same record twice (each record is appended once, when created). */
  predicate ListsDistinct(pg: NpcPage)
  {
    Distinct(pg.checks) && Distinct(pg.actions) && Distinct(pg.buttons) && Distinct(pg.goods)
  }

  // ----- edges and reachability -----

  function FailOf(s: Store, c: int): Option<int>
  {
    if c in s.checks then s.checks[c].failPage else None
  }

  function DestOf(s: Store, b: int): Option<int>
  {
    if b in s.buttons then s.buttons[b].destinationPage else None
  }

  /** `q -> r` is an edge: q's success page, a fail page of one of q's checks, or a destination of one of q's buttons. */
  ghost predicate Edge(s: Store, q: int, r: int)
  {
    q in s.pages &&
    (|| s.pages[q].successPage == Some(r)
     || (exists i :: 0 <= i < |s.pages[q].checks| && FailOf(s, s.pages[q].checks[i]) == Some(r))
     || (exists i :: 0 <= i < |s.pages[q].buttons| && DestOf(s, s.pages[q].buttons[i]) == Some(r)))
  }

  ghost predicate IsPath(s: Store, path: seq<int>)
  {
    |path| > 0 && forall i :: 0 <= i < |path| - 1 ==> Edge(s, path[i], path[i + 1])
  }

  /** `b` can be reached from `a` by following edges (possibly none). */
  ghost predicate Reaches(s: Store, a: int, b: int)
  {
    exists path :: IsPath(s, path) && path[0] == a && path[|path| - 1] == b
  }

  /** Every edge out of a page of `D` ends in `V`. */
  ghost predicate Closed(s: Store, D: set<int>, V: set<int>)
  {
    forall q, r :: q in D && Edge(s, q, r) ==> r in V
  }

  /** `s1` has no edge that `s0` lacks. */
  ghost predicate FewerEdges(s1: Store, s0: Store)
  {
    forall q, r :: Edge(s1, q, r) ==> Edge(s0, q, r)
  }

  /** Outside `V`, `s1` and `s0` have the same edges. */
  ghost predicate SameEdgesOutside(s1: Store, s0: Store, V: set<int>)
  {
    forall q, r :: q !in V ==> (Edge(s1, q, r) <==> Edge(s0, q, r))
  }

  lemma ReachesItself(s: Store, a: int)
    ensures Reaches(s, a, a)
  {
    assert IsPath(s, [a]);
  }

  lemma ReachesThroughEdge(s: Store, a: int, b: int, c: int)
    requires Edge(s, a, b) && Reaches(s, b, c)
    ensures Reaches(s, a, c)
  {
    var path :| IsPath(s, path) && path[0] == b && path[|path| - 1] == c;
    var longer := [a] + path;
    assert forall i :: 0 < i < |longer| ==> longer[i] == path[i - 1];
    assert IsPath(s, longer);
  }

  lemma ReachesInLargerGraph(s1: Store, s0: Store, a: int, b: int)
    requires FewerEdges(s1, s0) && Reaches(s1, a, b)
    ensures Reaches(s0, a, b)
  {
    var path :| IsPath(s1, path) && path[0] == a && path[|path| - 1] == b;
    assert IsPath(s0, path);
  }

  /** A set that holds `root` and is closed under edges holds every page reachable from `root`. */
  lemma {:induction false} ClosedHoldsReachable(s: Store, V: set<int>, root: int, b: int)
    requires root in V && Closed(s, V, V) && Reaches(s, root, b)
    ensures b in V
  {
    var path :| IsPath(s, path) && path[0] == root && path[|path| - 1] == b;
    PathStaysIn(s, V, path);
  }

  lemma {:induction false} PathStaysIn(s: Store, V: set<int>, path: seq<int>)
    requires IsPath(s, path) && path[0] in V && Closed(s, V, V)
    ensures path[|path| - 1] in V
  {
    if |path| > 1 {
      var prefix := path[..|path| - 1];
      assert IsPath(s, prefix);
      PathStaysIn(s, V, prefix);
      assert Edge(s, path[|path| - 2], path[|path| - 1]);
    }
  }

  // ----- what the cascade delete changes -----

  ghost predicate CheckOwned(s: Store, c: int, D: set<int>)
  {
    c in s.checks && s.checks[c].page.Some? && s.checks[c].page.value in D
    && s.checks[c].page.value in s.pages && c in s.pages[s.checks[c].page.value].checks
  }

  ghost predicate ActionOwned(s: Store, a: int, D: set<int>)
  {
    a in s.actions && s.actions[a].page.Some? && s.actions[a].page.value in D
    && s.actions[a].page.value in s.pages && a in s.pages[s.actions[a].page.value].actions
  }

  ghost predicate ButtonOwned(s: Store, b: int, D: set<int>)
  {
    b in s.buttons && s.buttons[b].page.Some? && s.buttons[b].page.value in D
    && s.buttons[b].page.value in s.pages && b in s.pages[s.buttons[b].page.value].buttons
  }

  ghost predicate GoodOwned(s: Store, g: int, D: set<int>)
  {
    g in s.goods && s.goods[g].page.Some? && s.goods[g].page.value in D
    && s.goods[g].page.value in s.pages && g in s.pages[s.goods[g].page.value].goods
  }

  /** The checks listed on the pages of `D` (and pointing back to them). */
  ghost function OwnedChecks(s: Store, D: set<int>): set<int>
  {
    set c | c in s.checks.Keys && CheckOwned(s, c, D)
  }

  ghost function OwnedActions(s: Store, D: set<int>): set<int>
  {
    set a | a in s.actions.Keys && ActionOwned(s, a, D)
  }

  ghost function OwnedButtons(s: Store, D: set<int>): set<int>
  {
    set b | b in s.buttons.Keys && ButtonOwned(s, b, D)
  }

  ghost function OwnedGoods(s: Store, D: set<int>): set<int>
  {
    set g | g in s.goods.Keys && GoodOwned(s, g, D)
  }

  /** The checks of `C` lost their fail page and left the check list; no other check changed. */
  ghost predicate ChecksRel(s0: Store, s1: Store, C: set<int>)
  {
    && s1.checks.Keys == s0.checks.Keys
    && (forall c :: c in s0.checks ==> s1.checks[c] == if c in C then s0.checks[c].(failPage := None) else s0.checks[c])
    && s1.checkList == s0.checkList - C
  }

  /** The buttons of `B` lost their destination and left the button list; no other button changed. */
  ghost predicate ButtonsRel(s0: Store, s1: Store, B: set<int>)
  {
    && s1.buttons.Keys == s0.buttons.Keys
    && (forall b :: b in s0.buttons ==> s1.buttons[b] == if b in B then s0.buttons[b].(destinationPage := None) else s0.buttons[b])
    && s1.buttonList == s0.buttonList - B
  }

  ghost predicate ActionsRel(s0: Store, s1: Store, A: set<int>)
  {
    s1.actions == s0.actions && s1.actionList == s0.actionList - A
  }

  ghost predicate GoodsRel(s0: Store, s1: Store, G: set<int>)
  {
    s1.goods == s0.goods && s1.goodList == s0.goodList - G
  }

  /**
   * `s1` is `s0` after the cascade delete removed the pages of `D`: each of them is cleared
   * and out of the page list, the records they own are out of their lists (checks and
   * buttons with their edge cleared), and nothing else changed.
   */
  ghost predicate Purged(s0: Store, s1: Store, D: set<int>)
  {
    && PagesPurged(s0, s1, D)
    && RecordsRel(s0, s1, OwnedChecks(s0, D), OwnedActions(s0, D), OwnedButtons(s0, D), OwnedGoods(s0, D))
    && s1.pageList == s0.pageList - D
    && s1.npcs == s0.npcs && s1.npcList == s0.npcList
  }

  /** The pages of `D` are cleared; every other page record is unchanged. */
  ghost predicate PagesPurged(s0: Store, s1: Store, D: set<int>)
  {
    && s1.pages.Keys == s0.pages.Keys
    && (forall q :: q in s0.pages ==> s1.pages[q] == if q in D then Cleared(s0.pages[q]) else s0.pages[q])
  }

  /** Like `PagesPurged`, saying nothing about page `p`. */
  ghost predicate PagesPurgedBut(s0: Store, s1: Store, D: set<int>, p: int)
  {
    && s1.pages.Keys == s0.pages.Keys
    && (forall q :: q in s0.pages && q != p ==> s1.pages[q] == if q in D then Cleared(s0.pages[q]) else s0.pages[q])
  }

  /** The records of `C`, `A`, `B`, `G` have left their lists, the checks and buttons among them with their edge cleared. */
  ghost predicate RecordsRel(s0: Store, s1: Store, C: set<int>, A: set<int>, B: set<int>, G: set<int>)
  {
    ChecksRel(s0, s1, C) && ActionsRel(s0, s1, A) && ButtonsRel(s0, s1, B) && GoodsRel(s0, s1, G)
  }

  /** `pg` is `orig` with some of its edges or lists cleared, and nothing else changed. */
  ghost predicate Shrunk(pg: NpcPage, orig: NpcPage)
  {
    && (pg.successPage == orig.successPage || pg.successPage.None?)
    && (pg.checks == orig.checks || pg.checks == [])
    && (pg.actions == orig.actions || pg.actions == [])
    && (pg.buttons == orig.buttons || pg.buttons == [])
    && (pg.goods == orig.goods || pg.goods == [])
    && pg.description == orig.description && pg.dialogType == orig.dialogType
    && pg.say == orig.say && pg.arguments == orig.arguments
  }

  /**
   * The cascade delete is part-way through page `p`: the pages of `D` are purged, `p` is now
   * `pg`, and of p's own records those in `C`, `A`, `B`, `G` have been dealt with.
   */
  ghost predicate Partial(s0: Store, s1: Store, D: set<int>, p: int, pg: NpcPage,
                          C: set<int>, A: set<int>, B: set<int>, G: set<int>)
  {
    && Progress(s0, p, pg, C, A, B, G) && p !in D
    && PagesPurgedBut(s0, s1, D, p)
    && s1.pages[p] == pg
    && RecordsRel(s0, s1, OwnedChecks(s0, D) + C, OwnedActions(s0, D) + A, OwnedButtons(s0, D) + B, OwnedGoods(s0, D) + G)
    && s1.pageList == s0.pageList - D
    && s1.npcs == s0.npcs && s1.npcList == s0.npcList
  }

  /** `pg` is page `p` partly cleared, and `C`, `A`, `B`, `G` are records of p's lists. */
  ghost predicate Progress(s0: Store, p: int, pg: NpcPage, C: set<int>, A: set<int>, B: set<int>, G: set<int>)
  {
    && p in s0.pages
    && Shrunk(pg, s0.pages[p])
    && (forall c :: c in C ==> c in s0.pages[p].checks)
    && (forall a :: a in A ==> a in s0.pages[p].actions)
    && (forall b :: b in B ==> b in s0.pages[p].buttons)
    && (forall g :: g in G ==> g in s0.pages[p].goods)
  }

  // ----- how the steps of the cascade delete compose -----

  ghost function Elems(xs: seq<int>): set<int>
  {
    set x | x in xs
  }

  lemma ElemsPrefix(xs: seq<int>, i: int)
    requires 0 <= i < |xs|
    ensures Elems(xs[..i + 1]) == Elems(xs[..i]) + {xs[i]}
  {
    assert xs[..i + 1] == xs[..i] + [xs[i]];
  }

  lemma PartialStart(s: Store, p: int)
    requires p in s.pages
    ensures Partial(s, s, {}, p, s.pages[p], {}, {}, {}, {})
  {
    assert OwnedChecks(s, {}) == {};
    assert OwnedButtons(s, {}) == {};
    assert OwnedActions(s, {}) == {};
    assert OwnedGoods(s, {}) == {};
  }

  /** After a nested delete of pages `Dc` (none of them `p` or already deleted) the progress on `p` still holds. */
  lemma PartialThenPurged(s0: Store, s1: Store, s2: Store, D: set<int>, Dc: set<int>, p: int,
                          pg: NpcPage, C: set<int>, A: set<int>, B: set<int>, G: set<int>)
    requires Partial(s0, s1, D, p, pg, C, A, B, G) && Purged(s1, s2, Dc)
    requires p !in Dc && D !! Dc
    ensures Partial(s0, s2, D + Dc, p, pg, C, A, B, G)
  {
    PagesCompose(s0, s1, s2, D, Dc, p);
    RecordsCompose(s0, s1, s2, D, Dc, p, C, A, B, G);
  }

  lemma RecordsCompose(s0: Store, s1: Store, s2: Store, D: set<int>, Dc: set<int>, p: int,
                       C: set<int>, A: set<int>, B: set<int>, G: set<int>)
    requires PagesPurgedBut(s0, s1, D, p) && p !in Dc && D !! Dc
    requires RecordsRel(s0, s1, OwnedChecks(s0, D) + C, OwnedActions(s0, D) + A, OwnedButtons(s0, D) + B, OwnedGoods(s0, D) + G)
    requires RecordsRel(s1, s2, OwnedChecks(s1, Dc), OwnedActions(s1, Dc), OwnedButtons(s1, Dc), OwnedGoods(s1, Dc))
    ensures RecordsRel(s0, s2, OwnedChecks(s0, D + Dc) + C, OwnedActions(s0, D + Dc) + A,
                       OwnedButtons(s0, D + Dc) + B, OwnedGoods(s0, D + Dc) + G)
  {
    RelKeepsOwners(s0, s1, OwnedChecks(s0, D) + C, OwnedButtons(s0, D) + B);
    forall q | q in Dc && q in s0.pages ensures q in s1.pages && s1.pages[q] == s0.pages[q] {
      assert q != p && q !in D;
    }
    OwnedUnchanged(s0, s1, Dc);
    OwnedUnion(s0, D, Dc);
    RecordsRelTrans(s0, s1, s2, OwnedChecks(s0, D) + C, OwnedActions(s0, D) + A, OwnedButtons(s0, D) + B, OwnedGoods(s0, D) + G,
                    OwnedChecks(s0, Dc), OwnedActions(s0, Dc), OwnedButtons(s0, Dc), OwnedGoods(s0, Dc));
    Regroup(OwnedChecks(s0, D), C, OwnedChecks(s0, Dc));
    Regroup(OwnedButtons(s0, D), B, OwnedButtons(s0, Dc));
    Regroup(OwnedActions(s0, D), A, OwnedActions(s0, Dc));
    Regroup(OwnedGoods(s0, D), G, OwnedGoods(s0, Dc));
  }

  lemma Regroup(X: set<int>, C: set<int>, Y: set<int>)
    ensures X + C + Y == (X + Y) + C
  {
  }

  lemma PagesCompose(s0: Store, s1: Store, s2: Store, D: set<int>, Dc: set<int>, p: int)
    requires PagesPurgedBut(s0, s1, D, p) && PagesPurged(s1, s2, Dc) && p !in Dc && D !! Dc
    ensures PagesPurgedBut(s0, s2, D + Dc, p)
    ensures p in s0.pages ==> s2.pages[p] == s1.pages[p]
  {
    forall q | q in s0.pages && q != p
      ensures s2.pages[q] == if q in D + Dc then Cleared(s0.pages[q]) else s0.pages[q]
    {
      if q in Dc {
        assert q !in D;
      }
    }
  }

  lemma RecordsRelTrans(s0: Store, s1: Store, s2: Store, C: set<int>, A: set<int>, B: set<int>, G: set<int>,
                        C2: set<int>, A2: set<int>, B2: set<int>, G2: set<int>)
    requires RecordsRel(s0, s1, C, A, B, G) && RecordsRel(s1, s2, C2, A2, B2, G2)
    ensures RecordsRel(s0, s2, C + C2, A + A2, B + B2, G + G2)
  {
    ChecksRelTrans(s0, s1, s2, C, C2);
    ButtonsRelTrans(s0, s1, s2, B, B2);
  }

  lemma ChecksRelTrans(s0: Store, s1: Store, s2: Store, X: set<int>, Y: set<int>)
    requires ChecksRel(s0, s1, X) && ChecksRel(s1, s2, Y)
    ensures ChecksRel(s0, s2, X + Y)
  {
  }

  lemma ButtonsRelTrans(s0: Store, s1: Store, s2: Store, X: set<int>, Y: set<int>)
    requires ButtonsRel(s0, s1, X) && ButtonsRel(s1, s2, Y)
    ensures ButtonsRel(s0, s2, X + Y)
  {
  }

  lemma RelKeepsOwners(s0: Store, s1: Store, C: set<int>, B: set<int>)
    requires ChecksRel(s0, s1, C) && ButtonsRel(s0, s1, B)
    ensures forall c :: c in s0.checks ==> s1.checks[c].page == s0.checks[c].page
    ensures forall b :: b in s0.buttons ==> s1.buttons[b].page == s0.buttons[b].page
  {
  }

  /** Ownership by the pages of `X` only depends on those pages and on the records' owners. */
  lemma OwnedUnchanged(s0: Store, s1: Store, X: set<int>)
    requires s1.pages.Keys == s0.pages.Keys
    requires forall q :: q in X && q in s0.pages ==> q in s1.pages && s1.pages[q] == s0.pages[q]
    requires s1.checks.Keys == s0.checks.Keys && forall c :: c in s0.checks ==> s1.checks[c].page == s0.checks[c].page
    requires s1.buttons.Keys == s0.buttons.Keys && forall b :: b in s0.buttons ==> s1.buttons[b].page == s0.buttons[b].page
    requires s1.actions == s0.actions && s1.goods == s0.goods
    ensures OwnedChecks(s1, X) == OwnedChecks(s0, X) && OwnedButtons(s1, X) == OwnedButtons(s0, X)
    ensures OwnedActions(s1, X) == OwnedActions(s0, X) && OwnedGoods(s1, X) == OwnedGoods(s0, X)
  {
    forall c | c in s0.checks ensures CheckOwned(s1, c, X) <==> CheckOwned(s0, c, X) {
      if s0.checks[c].page.Some? && s0.checks[c].page.value in X && s0.checks[c].page.value in s0.pages {
        var q := s0.checks[c].page.value;
        assert s1.pages[q] == s0.pages[q];
      }
    }
    forall b | b in s0.buttons ensures ButtonOwned(s1, b, X) <==> ButtonOwned(s0, b, X) {
      if s0.buttons[b].page.Some? && s0.buttons[b].page.value in X && s0.buttons[b].page.value in s0.pages {
        var q := s0.buttons[b].page.value;
        assert s1.pages[q] == s0.pages[q];
      }
    }
    forall a | a in s0.actions ensures ActionOwned(s1, a, X) <==> ActionOwned(s0, a, X) {
      if s0.actions[a].page.Some? && s0.actions[a].page.value in X && s0.actions[a].page.value in s0.pages {
        var q := s0.actions[a].page.value;
        assert s1.pages[q] == s0.pages[q];
      }
    }
    forall g | g in s0.goods ensures GoodOwned(s1, g, X) <==> GoodOwned(s0, g, X) {
      if s0.goods[g].page.Some? && s0.goods[g].page.value in X && s0.goods[g].page.value in s0.pages {
        var q := s0.goods[g].page.value;
        assert s1.pages[q] == s0.pages[q];
      }
    }
  }

  lemma OwnedUnion(s: Store, D1: set<int>, D2: set<int>)
    ensures OwnedChecks(s, D1) + OwnedChecks(s, D2) == OwnedChecks(s, D1 + D2)
    ensures OwnedButtons(s, D1) + OwnedButtons(s, D2) == OwnedButtons(s, D1 + D2)
    ensures OwnedActions(s, D1) + OwnedActions(s, D2) == OwnedActions(s, D1 + D2)
    ensures OwnedGoods(s, D1) + OwnedGoods(s, D2) == OwnedGoods(s, D1 + D2)
  {
  }

  /** Rewriting p's own record to another shrunk version of it keeps the progress. */
  lemma PageStep(s0: Store, s1: Store, s2: Store, D: set<int>, p: int, pg: NpcPage, pg2: NpcPage,
                 C: set<int>, A: set<int>, B: set<int>, G: set<int>)
    requires Partial(s0, s1, D, p, pg, C, A, B, G)
    requires Shrunk(pg2, s0.pages[p])
    requires s2 == s1.(pages := s1.pages[p := pg2])
    ensures Partial(s0, s2, D, p, pg2, C, A, B, G)
  {
  }

  /** Check `c` of page `p` has lost its fail page and left the check list. */
  lemma CheckStep(s0: Store, s1: Store, s2: Store, D: set<int>, p: int, pg: NpcPage,
                  C: set<int>, A: set<int>, B: set<int>, G: set<int>, c: int)
    requires Valid(s0) && Partial(s0, s1, D, p, pg, C, A, B, G)
    requires c in s0.pages[p].checks
    requires s2.checks.Keys == s1.checks.Keys
    requires forall x :: x in s1.checks ==> s2.checks[x] == if x == c then s1.checks[c].(failPage := None) else s1.checks[x]
    requires s2 == s1.(checks := s2.checks, checkList := s1.checkList - {c})
    ensures Partial(s0, s2, D, p, pg, C + {c}, A, B, G)
  {
    var X := OwnedChecks(s0, D) + C;
    forall x | x in s0.checks
      ensures s2.checks[x] == if x in X + {c} then s0.checks[x].(failPage := None) else s0.checks[x]
    {
    }
    assert s2.checkList == s0.checkList - (X + {c});
    assert OwnedChecks(s0, D) + (C + {c}) == X + {c};
  }

  lemma ButtonStep(s0: Store, s1: Store, s2: Store, D: set<int>, p: int, pg: NpcPage,
                   C: set<int>, A: set<int>, B: set<int>, G: set<int>, b: int)
    requires Valid(s0) && Partial(s0, s1, D, p, pg, C, A, B, G)
    requires b in s0.pages[p].buttons
    requires s2.buttons.Keys == s1.buttons.Keys
    requires forall x :: x in s1.buttons ==> s2.buttons[x] == if x == b then s1.buttons[b].(destinationPage := None) else s1.buttons[x]
    requires s2 == s1.(buttons := s2.buttons, buttonList := s1.buttonList - {b})
    ensures Partial(s0, s2, D, p, pg, C, A, B + {b}, G)
  {
    var X := OwnedButtons(s0, D) + B;
    forall x | x in s0.buttons
      ensures s2.buttons[x] == if x in X + {b} then s0.buttons[x].(destinationPage := None) else s0.buttons[x]
    {
    }
    assert s2.buttonList == s0.buttonList - (X + {b});
    assert OwnedButtons(s0, D) + (B + {b}) == X + {b};
  }

  lemma ActionStep(s0: Store, s1: Store, s2: Store, D: set<int>, p: int, pg: NpcPage,
                   C: set<int>, A: set<int>, B: set<int>, G: set<int>, a: int)
    requires Partial(s0, s1, D, p, pg, C, A, B, G)
    requires a in s0.pages[p].actions
    requires s2 == s1.(actionList := s1.actionList - {a})
    ensures Partial(s0, s2, D, p, pg, C, A + {a}, B, G)
  {
  }

  lemma GoodStep(s0: Store, s1: Store, s2: Store, D: set<int>, p: int, pg: NpcPage,
                 C: set<int>, A: set<int>, B: set<int>, G: set<int>, g: int)
    requires Partial(s0, s1, D, p, pg, C, A, B, G)
    requires g in s0.pages[p].goods
    requires s2 == s1.(goodList := s1.goodList - {g})
    ensures Partial(s0, s2, D, p, pg, C, A, B, G + {g})
  {
  }

  /** Once `p` is cleared, all its records are dealt with and it has left the page list, `p` is purged. */
  lemma PartialFinish(s0: Store, s1: Store, s2: Store, D: set<int>, p: int)
    requires Valid(s0) && p in s0.pages
    requires Partial(s0, s1, D, p, Cleared(s0.pages[p]), Elems(s0.pages[p].checks), Elems(s0.pages[p].actions),
                     Elems(s0.pages[p].buttons), Elems(s0.pages[p].goods))
    requires s2 == s1.(pageList := s1.pageList - {p})
    ensures Purged(s0, s2, D + {p})
  {
    OwnedAddPage(s0, D, p);
  }

  /** Under `Valid`, the records owned by `D + {p}` are those owned by `D` plus p's lists. */
  lemma OwnedAddPage(s: Store, D: set<int>, p: int)
    requires Valid(s) && p in s.pages
    ensures OwnedChecks(s, D + {p}) == OwnedChecks(s, D) + Elems(s.pages[p].checks)
    ensures OwnedButtons(s, D + {p}) == OwnedButtons(s, D) + Elems(s.pages[p].buttons)
    ensures OwnedActions(s, D + {p}) == OwnedActions(s, D) + Elems(s.pages[p].actions)
    ensures OwnedGoods(s, D + {p}) == OwnedGoods(s, D) + Elems(s.pages[p].goods)
  {
    forall c ensures c in OwnedChecks(s, D + {p}) <==> c in OwnedChecks(s, D) + Elems(s.pages[p].checks) {
      if c in s.pages[p].checks {
        assert s.checks[c].page == Some(p);
      }
    }
    forall b ensures b in OwnedButtons(s, D + {p}) <==> b in OwnedButtons(s, D) + Elems(s.pages[p].buttons) {
      if b in s.pages[p].buttons {
        assert s.buttons[b].page == Some(p);
      }
    }
    forall a ensures a in OwnedActions(s, D + {p}) <==> a in OwnedActions(s, D) + Elems(s.pages[p].actions) {
      if a in s.pages[p].actions {
        assert s.actions[a].page == Some(p);
      }
    }
    forall g ensures g in OwnedGoods(s, D + {p}) <==> g in OwnedGoods(s, D) + Elems(s.pages[p].goods) {
      if g in s.pages[p].goods {
        assert s.goods[g].page == Some(p);
      }
    }
  }

  /** A purge removes edges only, and only out of the purged pages. */
  lemma PurgedEdges(s0: Store, s1: Store, D: set<int>)
    requires Valid(s0) && Purged(s0, s1, D)
    ensures FewerEdges(s1, s0) && SameEdgesOutside(s1, s0, D)
  {
    forall q, r | Edge(s1, q, r) ensures Edge(s0, q, r) {
      if q !in D {
        SameEdgesAt(s0, s1, D, q, r);
      }
    }
    forall q, r | q !in D ensures Edge(s1, q, r) <==> Edge(s0, q, r) {
      SameEdgesAt(s0, s1, D, q, r);
    }
  }

  lemma SameEdgesAt(s0: Store, s1: Store, D: set<int>, q: int, r: int)
    requires Valid(s0) && Purged(s0, s1, D) && q !in D
    ensures Edge(s1, q, r) <==> Edge(s0, q, r)
  {
    if q in s0.pages {
      var pg := s0.pages[q];
      forall c | c in pg.checks ensures FailOf(s1, c) == FailOf(s0, c) {
        assert !CheckOwned(s0, c, D);
      }
      forall b | b in pg.buttons ensures DestOf(s1, b) == DestOf(s0, b) {
        assert !ButtonOwned(s0, b, D);
      }
      EdgeSameAt(s0, s1, q, r);
    }
  }

  /** A page whose record, fail pages and destinations are unchanged has the same edges. */
  lemma EdgeSameAt(s0: Store, s1: Store, q: int, r: int)
    requires q in s0.pages && q in s1.pages && s1.pages[q] == s0.pages[q]
    requires forall c :: c in s0.pages[q].checks ==> FailOf(s1, c) == FailOf(s0, c)
    requires forall b :: b in s0.pages[q].buttons ==> DestOf(s1, b) == DestOf(s0, b)
    ensures Edge(s1, q, r) <==> Edge(s0, q, r)
  {
    var pg := s0.pages[q];
    forall i | 0 <= i < |pg.checks| ensures FailOf(s1, pg.checks[i]) == FailOf(s0, pg.checks[i]) {
      assert pg.checks[i] in pg.checks;
    }
    forall i | 0 <= i < |pg.buttons| ensures DestOf(s1, pg.buttons[i]) == DestOf(s0, pg.buttons[i]) {
      assert pg.buttons[i] in pg.buttons;
    }
  }

  /** A part-way state has no edge the original lacks, and the same edges outside `D + {p}`. */
  lemma PartialEdges(s0: Store, s1: Store, D: set<int>, p: int, pg: NpcPage,
                     C: set<int>, A: set<int>, B: set<int>, G: set<int>)
    requires Valid(s0) && Partial(s0, s1, D, p, pg, C, A, B, G)
    ensures FewerEdges(s1, s0) && SameEdgesOutside(s1, s0, D + {p})
  {
    forall q, r | Edge(s1, q, r) ensures Edge(s0, q, r) {
      if q == p {
        PartialEdgeAtP(s0, s1, D, p, pg, C, A, B, G, r);
      } else if q !in D {
        PartialSameEdgesAt(s0, s1, D, p, pg, C, A, B, G, q, r);
      }
    }
    forall q, r | q !in D + {p} ensures Edge(s1, q, r) <==> Edge(s0, q, r) {
      PartialSameEdgesAt(s0, s1, D, p, pg, C, A, B, G, q, r);
    }
  }

  lemma PartialEdgeAtP(s0: Store, s1: Store, D: set<int>, p: int, pg: NpcPage,
                       C: set<int>, A: set<int>, B: set<int>, G: set<int>, r: int)
    requires Valid(s0) && Partial(s0, s1, D, p, pg, C, A, B, G) && Edge(s1, p, r)
    ensures Edge(s0, p, r)
  {
    var orig := s0.pages[p];
    if pg.successPage == Some(r) {
      assert orig.successPage == Some(r);
    } else if exists i :: 0 <= i < |pg.checks| && FailOf(s1, pg.checks[i]) == Some(r) {
      var i :| 0 <= i < |pg.checks| && FailOf(s1, pg.checks[i]) == Some(r);
      assert pg.checks == orig.checks;
      assert FailOf(s0, orig.checks[i]) == Some(r);
    } else {
      var i :| 0 <= i < |pg.buttons| && DestOf(s1, pg.buttons[i]) == Some(r);
      assert pg.buttons == orig.buttons;
      assert DestOf(s0, orig.buttons[i]) == Some(r);
    }
  }

  lemma PartialSameEdgesAt(s0: Store, s1: Store, D: set<int>, p: int, pg: NpcPage,
                           C: set<int>, A: set<int>, B: set<int>, G: set<int>, q: int, r: int)
    requires Valid(s0) && Partial(s0, s1, D, p, pg, C, A, B, G) && q !in D && q != p
    ensures Edge(s1, q, r) <==> Edge(s0, q, r)
  {
    if q in s0.pages {
      var pq := s0.pages[q];
      forall c | c in pq.checks ensures FailOf(s1, c) == FailOf(s0, c) {
        CheckBackRef(s0, q, c);
        assert !CheckOwned(s0, c, D) && c !in C;
      }
      forall b | b in pq.buttons ensures DestOf(s1, b) == DestOf(s0, b) {
        ButtonBackRef(s0, q, b);
        assert !ButtonOwned(s0, b, D) && b !in B;
      }
      EdgeSameAt(s0, s1, q, r);
    }
  }

  /**
   * `s1` differs from `s0` only by cleared page fields, cleared check and button edges and
   * records gone from their lists.
   */
  ghost predicate Weakened(s0: Store, s1: Store)
  {
    && s1.pages.Keys == s0.pages.Keys
    && (forall q :: q in s0.pages ==> Shrunk(s1.pages[q], s0.pages[q]))
    && s1.checks.Keys == s0.checks.Keys
    && (forall c :: c in s0.checks ==> s1.checks[c] == s0.checks[c] || s1.checks[c] == s0.checks[c].(failPage := None))
    && s1.buttons.Keys == s0.buttons.Keys
    && (forall b :: b in s0.buttons ==> s1.buttons[b] == s0.buttons[b] || s1.buttons[b] == s0.buttons[b].(destinationPage := None))
    && s1.actions == s0.actions && s1.goods == s0.goods
    && s1.pageList <= s0.pageList && s1.checkList <= s0.checkList && s1.actionList <= s0.actionList
    && s1.buttonList <= s0.buttonList && s1.goodList <= s0.goodList
    && s1.npcs == s0.npcs && s1.npcList == s0.npcList
  }

  lemma CheckBackRef(s: Store, q: int, c: int)
    requires Valid(s) && q in s.pages && c in s.pages[q].checks
    ensures c in s.checks && s.checks[c].page == Some(q)
  {
  }

  lemma ButtonBackRef(s: Store, q: int, b: int)
    requires Valid(s) && q in s.pages && b in s.pages[q].buttons
    ensures b in s.buttons && s.buttons[b].page == Some(q)
  {
  }

  /** Every page of a consistent store lists each of its records once. */
  lemma PageListsDistinct(s: Store, q: int)
    requires Valid(s) && q in s.pages
    ensures ListsDistinct(s.pages[q])
  {
  }

  /** Part-way through page `p`, a check of p not yet dealt with is as it was, and its fail page is an edge of p. */
  lemma CheckUntouched(S: Store, cur: Store, D: set<int>, p: int, C: set<int>, A: set<int>, B: set<int>, G: set<int>, i: int)
    requires Valid(S) && p in cur.pages && Partial(S, cur, D, p, cur.pages[p], C, A, B, G)
    requires 0 <= i < |S.pages[p].checks| && S.pages[p].checks[i] !in C
    ensures S.pages[p].checks[i] in cur.checks && cur.checks[S.pages[p].checks[i]] == S.checks[S.pages[p].checks[i]]
    ensures FailOf(S, S.pages[p].checks[i]).Some? ==> Edge(S, p, FailOf(S, S.pages[p].checks[i]).value)
  {
    var c := S.pages[p].checks[i];
    CheckBackRef(S, p, c);
    assert c !in OwnedChecks(S, D);
  }

  /** Part-way through page `p`, a button of p not yet dealt with is as it was, and its destination is an edge of p. */
  lemma ButtonUntouched(S: Store, cur: Store, D: set<int>, p: int, C: set<int>, A: set<int>, B: set<int>, G: set<int>, i: int)
    requires Valid(S) && p in cur.pages && Partial(S, cur, D, p, cur.pages[p], C, A, B, G)
    requires 0 <= i < |S.pages[p].buttons| && S.pages[p].buttons[i] !in B
    ensures S.pages[p].buttons[i] in cur.buttons && cur.buttons[S.pages[p].buttons[i]] == S.buttons[S.pages[p].buttons[i]]
    ensures DestOf(S, S.pages[p].buttons[i]).Some? ==> Edge(S, p, DestOf(S, S.pages[p].buttons[i]).value)
  {
    var b := S.pages[p].buttons[i];
    ButtonBackRef(S, p, b);
    assert b !in OwnedButtons(S, D);
  }

  /** Clearing edges and leaving lists never breaks the world's consistency. */
  lemma WeakenedValid(s0: Store, s1: Store)
    requires Valid(s0) && Weakened(s0, s1)
    ensures Valid(s1)
  {
    WeakenedPagesValid(s0, s1);
    WeakenedOwnersValid(s0, s1);
    WeakenedRecordsValid(s0, s1);
  }

  lemma WeakenedPagesValid(s0: Store, s1: Store)
    requires Valid(s0) && Weakened(s0, s1)
    ensures PagesLinked(s1) && ListsKnown(s1)
  {
    forall q | q in s1.pages ensures OptIn(s1.pages[q].successPage, s1.pages.Keys) && ListsDistinct(s1.pages[q]) {
      assert Shrunk(s1.pages[q], s0.pages[q]) && ListsDistinct(s0.pages[q]);
    }
  }

  lemma WeakenedOwnersValid(s0: Store, s1: Store)
    requires Valid(s0) && Weakened(s0, s1)
    ensures BackRefsHold(s1)
  {
    WeakenedCheckOwners(s0, s1);
    WeakenedButtonOwners(s0, s1);
    WeakenedOtherOwners(s0, s1);
  }

  lemma WeakenedCheckOwners(s0: Store, s1: Store)
    requires Valid(s0) && Weakened(s0, s1)
    ensures CheckRefsHold(s1)
  {
    forall q, c | q in s1.pages && c in s1.pages[q].checks ensures c in s1.checks && s1.checks[c].page == Some(q) {
      assert Shrunk(s1.pages[q], s0.pages[q]);
      assert c in s0.pages[q].checks;
      CheckBackRef(s0, q, c);
    }
  }

  lemma WeakenedButtonOwners(s0: Store, s1: Store)
    requires Valid(s0) && Weakened(s0, s1)
    ensures ButtonRefsHold(s1)
  {
    forall q, b | q in s1.pages && b in s1.pages[q].buttons ensures b in s1.buttons && s1.buttons[b].page == Some(q) {
      assert Shrunk(s1.pages[q], s0.pages[q]);
      assert b in s0.pages[q].buttons;
      ButtonBackRef(s0, q, b);
    }
  }

  lemma WeakenedOtherOwners(s0: Store, s1: Store)
    requires Valid(s0) && Weakened(s0, s1)
    ensures ActionRefsHold(s1) && GoodRefsHold(s1)
  {
    forall q, a | q in s1.pages && a in s1.pages[q].actions ensures a in s1.actions && s1.actions[a].page == Some(q) {
      assert Shrunk(s1.pages[q], s0.pages[q]);
      assert a in s0.pages[q].actions;
    }
    forall q, g | q in s1.pages && g in s1.pages[q].goods ensures g in s1.goods && s1.goods[g].page == Some(q) {
      assert Shrunk(s1.pages[q], s0.pages[q]);
      assert g in s0.pages[q].goods;
    }
  }

  lemma WeakenedRecordsValid(s0: Store, s1: Store)
    requires Valid(s0) && Weakened(s0, s1)
    ensures RecordsLinked(s1)
  {
  }

  lemma PartialWeakened(s0: Store, s1: Store, D: set<int>, p: int, pg: NpcPage,
                        C: set<int>, A: set<int>, B: set<int>, G: set<int>)
    requires Partial(s0, s1, D, p, pg, C, A, B, G)
    ensures Weakened(s0, s1)
  {
    forall q | q in s0.pages ensures Shrunk(s1.pages[q], s0.pages[q]) {
    }
  }

  lemma PurgedWeakened(s0: Store, s1: Store, D: set<int>)
    requires Purged(s0, s1, D)
    ensures Weakened(s0, s1)
  {
    forall q | q in s0.pages ensures Shrunk(s1.pages[q], s0.pages[q]) {
    }
  }

  lemma PartialValid(s0: Store, s1: Store, D: set<int>, p: int, pg: NpcPage,
                     C: set<int>, A: set<int>, B: set<int>, G: set<int>)
    requires Valid(s0) && Partial(s0, s1, D, p, pg, C, A, B, G)
    ensures Valid(s1)
  {
    PartialWeakened(s0, s1, D, p, pg, C, A, B, G);
    WeakenedValid(s0, s1);
  }

  lemma PurgedValid(s0: Store, s1: Store, D: set<int>)
    requires Valid(s0) && Purged(s0, s1, D)
    ensures Valid(s1)
  {
    PurgedWeakened(s0, s1, D);
    WeakenedValid(s0, s1);
  }

  /**
   * What the cascade delete knows while working on page `p`, entered with visited set `base`:
   * the pages of `D` are purged, `V` is `base` plus `p` plus `D`, every edge out of `D` ends
   * in `V`, and every page of `D` is reachable from `p` in the original store `S`.
   */
  ghost predicate InProgress(S: Store, cur: Store, base: set<int>, V: set<int>, D: set<int>, p: int,
                             C: set<int>, A: set<int>, B: set<int>, G: set<int>)
  {
    && Valid(S) && p in cur.pages
    && Partial(S, cur, D, p, cur.pages[p], C, A, B, G)
    && p !in base && D !! base && V == base + {p} + D && V <= S.pages.Keys
    && Closed(S, D, V)
    && (forall q :: q in D ==> Reaches(S, p, q))
  }

  lemma InProgressValid(S: Store, cur: Store, base: set<int>, V: set<int>, D: set<int>, p: int,
                        C: set<int>, A: set<int>, B: set<int>, G: set<int>)
    requires InProgress(S, cur, base, V, D, p, C, A, B, G)
    ensures Valid(cur) && cur.pages.Keys == S.pages.Keys
  {
    PartialValid(S, cur, D, p, cur.pages[p], C, A, B, G);
  }

  /** Entering the delete of page `p` with visited set `base`. */
  lemma InProgressStart(S: Store, base: set<int>, p: int)
    requires Valid(S) && p in S.pages && p !in base && base <= S.pages.Keys
    ensures InProgress(S, S, base, base + {p}, {}, p, {}, {}, {}, {})
  {
    PartialStart(S, p);
  }

  /** Dropping the check at position `i` of p's list (its fail page cleared when it had one) keeps the progress on `p`. */
  lemma CheckCleared(S: Store, cur: Store, next: Store, base: set<int>, V: set<int>, D: set<int>, p: int,
                     C: set<int>, A: set<int>, B: set<int>, G: set<int>, c: int, i: int)
    requires InProgress(S, cur, base, V, D, p, C, A, B, G)
    requires 0 <= i < |S.pages[p].checks| && c == S.pages[p].checks[i] && c !in C && c in cur.checks
    requires next.checks == if cur.checks[c].failPage.Some? then cur.checks[c := cur.checks[c].(failPage := None)] else cur.checks
    requires next == cur.(checks := next.checks, checkList := cur.checkList - {c})
    ensures InProgress(S, next, base, V, D, p, C + {c}, A, B, G) && next.pages == cur.pages
  {
    CheckStep(S, cur, next, D, p, cur.pages[p], C, A, B, G, c);
  }

  /** Dropping the button at position `i` of p's list (its destination cleared when it had one) keeps the progress on `p`. */
  lemma ButtonCleared(S: Store, cur: Store, next: Store, base: set<int>, V: set<int>, D: set<int>, p: int,
                      C: set<int>, A: set<int>, B: set<int>, G: set<int>, b: int, i: int)
    requires InProgress(S, cur, base, V, D, p, C, A, B, G)
    requires 0 <= i < |S.pages[p].buttons| && b == S.pages[p].buttons[i] && b !in B && b in cur.buttons
    requires next.buttons == if cur.buttons[b].destinationPage.Some? then cur.buttons[b := cur.buttons[b].(destinationPage := None)] else cur.buttons
    requires next == cur.(buttons := next.buttons, buttonList := cur.buttonList - {b})
    ensures InProgress(S, next, base, V, D, p, C, A, B + {b}, G) && next.pages == cur.pages
  {
    ButtonStep(S, cur, next, D, p, cur.pages[p], C, A, B, G, b);
  }

  /** An edge of a consistent store ends at a page of the heap. */
  lemma EdgeTargetExists(s: Store, q: int, r: int)
    requires Valid(s) && Edge(s, q, r)
    ensures r in s.pages
  {
    if s.pages[q].successPage == Some(r) {
    } else if exists i :: 0 <= i < |s.pages[q].checks| && FailOf(s, s.pages[q].checks[i]) == Some(r) {
      var i :| 0 <= i < |s.pages[q].checks| && FailOf(s, s.pages[q].checks[i]) == Some(r);
      assert s.pages[q].checks[i] in s.checks;
    } else {
      var i :| 0 <= i < |s.pages[q].buttons| && DestOf(s, s.pages[q].buttons[i]) == Some(r);
      assert s.pages[q].buttons[i] in s.buttons;
    }
  }

  /**
   * A nested delete of `child` (an edge target of `p`) that turned `cur` into `next` and
   * grew the visited set from `V` to `V2` keeps the progress on `p`.
   */
  lemma ChildDone(S: Store, cur: Store, next: Store, base: set<int>, V: set<int>, V2: set<int>,
                  D: set<int>, p: int, child: int, C: set<int>, A: set<int>, B: set<int>, G: set<int>)
    requires InProgress(S, cur, base, V, D, p, C, A, B, G) && Edge(S, p, child)
    requires V <= V2 <= S.pages.Keys && Purged(cur, next, V2 - V)
    requires Closed(cur, V2 - V, V2) && forall q :: q in V2 - V ==> Reaches(cur, child, q)
    ensures InProgress(S, next, base, V2, D + (V2 - V), p, C, A, B, G)
    ensures next.pages[p] == cur.pages[p]
  {
    var Dc := V2 - V;
    PartialThenPurged(S, cur, next, D, Dc, p, cur.pages[p], C, A, B, G);
    PartialEdges(S, cur, D, p, cur.pages[p], C, A, B, G);
    forall q, r | q in D + Dc && Edge(S, q, r) ensures r in V2 {
      if q in Dc {
        assert Edge(cur, q, r);
      }
    }
    forall q | q in Dc ensures Reaches(S, p, q) {
      ReachesInLargerGraph(cur, S, child, q);
      ReachesThroughEdge(S, p, child, q);
    }
  }

  // ----- whole-graph views -----

  /** The pages reachable from `root`, `root` included when it exists. */
  ghost function ReachableFrom(s: Store, root: int): set<int>
  {
    set q | q in s.pages.Keys && Reaches(s, root, q)
  }

  /** From a page of a consistent store, only pages of the heap can be reached. */
  lemma ReachedInHeap(s: Store, a: int, b: int)
    requires Valid(s) && a in s.pages && Reaches(s, a, b)
    ensures b in s.pages
  {
    var path :| IsPath(s, path) && path[0] == a && path[|path| - 1] == b;
    if |path| > 1 {
      assert Edge(s, path[|path| - 2], path[|path| - 1]);
      EdgeTargetExists(s, path[|path| - 2], b);
    }
  }

  /**
   * A visited set that holds `root`, is closed under edges and holds only pages reachable
   * from `root` is exactly the set of pages reachable from `root`.
   */
  lemma VisitedIsReachable(s: Store, root: int, V: set<int>)
    requires root in V && V <= s.pages.Keys && Closed(s, V, V)
    requires forall q :: q in V ==> Reaches(s, root, q)
    ensures V == ReachableFrom(s, root)
  {
    forall b | b in ReachableFrom(s, root) ensures b in V {
      ClosedHoldsReachable(s, V, root, b);
    }
  }

  /**
   * What `FindPage` finds for `idx`: the page itself when it is registered in the page
   * list or reachable from the entry page of some NPC of the NPC list; nothing otherwise.
   */
  ghost function Located(s: Store, idx: int): (r: Option<int>)
    ensures r.Some? ==> r.value == idx
    ensures r.Some? <==> idx in s.pageList || exists n :: n in s.npcList && EntryReaches(s, n, idx)
  {
    if idx in s.pageList || exists n :: n in s.npcList && EntryReaches(s, n, idx) then Some(idx) else None
  }

  /** NPC `n` has an entry page from which `idx` can be reached. */
  ghost predicate EntryReaches(s: Store, n: int, idx: int)
  {
    n in s.npcs && s.npcs[n].entryPage.Some? && Reaches(s, s.npcs[n].entryPage.value, idx)
  }

  lemma LocatedInHeap(s: Store, idx: int)
    requires Valid(s) && Located(s, idx).Some?
    ensures idx in s.pages
  {
    if idx !in s.pageList {
      var n :| n in s.npcList && EntryReaches(s, n, idx);
      ReachedInHeap(s, s.npcs[n].entryPage.value, idx);
    }
  }

  lemma PurgedNothing(s: Store)
    ensures Purged(s, s, {})
  {
    assert OwnedChecks(s, {}) == {};
    assert OwnedButtons(s, {}) == {};
    assert OwnedActions(s, {}) == {};
    assert OwnedGoods(s, {}) == {};
  }
}
