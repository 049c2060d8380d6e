/**
 * The NPC admin handlers over a mutable world (`SEnvir`): the page lookup, the cycle-safe
 * cascade delete, and the structural create/delete handlers for entry pages, NPCs,
 * checks, actions, buttons and goods.
 */
module NpcAdmin {
  import opened Common
  import opened Access
  import opened DialogGraph
  import opened NpcEdits
  import opened PageSearch

  /** When the success page, every fail page and every destination of `p` lie in `V`, every edge out of `p` does. */
  lemma EdgesOfPageIn(S: Store, p: int, V: set<int>)
    requires p in S.pages && OptIn(S.pages[p].successPage, V)
    requires forall j :: 0 <= j < |S.pages[p].checks| ==> OptIn(FailOf(S, S.pages[p].checks[j]), V)
    requires forall j :: 0 <= j < |S.pages[p].buttons| ==> OptIn(DestOf(S, S.pages[p].buttons[j]), V)
    ensures Closed(S, {p}, V)
  {
  }

  /** The fail pages of the first `n` checks of `cs` lie in `V`. */
  ghost predicate FailsIn(S: Store, cs: seq<int>, n: int, V: set<int>)
  {
    forall j :: 0 <= j < n && j < |cs| ==> OptIn(FailOf(S, cs[j]), V)
  }

  /** The destinations of the first `n` buttons of `bs` lie in `V`. */
  ghost predicate DestsIn(S: Store, bs: seq<int>, n: int, V: set<int>)
  {
    forall j :: 0 <= j < n && j < |bs| ==> OptIn(DestOf(S, bs[j]), V)
  }

  lemma FailsInStep(S: Store, cs: seq<int>, n: int, V1: set<int>, V2: set<int>)
    requires 0 <= n < |cs| && FailsIn(S, cs, n, V1) && V1 <= V2 && OptIn(FailOf(S, cs[n]), V2)
    ensures FailsIn(S, cs, n + 1, V2)
  {
  }

  lemma DestsInStep(S: Store, bs: seq<int>, n: int, V1: set<int>, V2: set<int>)
    requires 0 <= n < |bs| && DestsIn(S, bs, n, V1) && V1 <= V2 && OptIn(DestOf(S, bs[n]), V2)
    ensures DestsIn(S, bs, n + 1, V2)
  {
  }

  lemma FailsInGrow(S: Store, cs: seq<int>, n: int, V1: set<int>, V2: set<int>)
    requires FailsIn(S, cs, n, V1) && V1 <= V2
    ensures FailsIn(S, cs, n, V2)
  {
  }

  /** Taking a fully cleared page `p` out of the page list completes its cascade delete. */
  lemma PageDone(S: Store, cur: Store, next: Store, base: set<int>, V: set<int>, D: set<int>, p: int)
    requires p in S.pages
    requires InProgress(S, cur, base, V, D, p, Elems(S.pages[p].checks), Elems(S.pages[p].actions),
                        Elems(S.pages[p].buttons), Elems(S.pages[p].goods))
    requires cur.pages[p] == Cleared(S.pages[p]) && Closed(S, {p}, V)
    requires next == cur.(pageList := cur.pageList - {p})
    ensures base <= V <= S.pages.Keys && p in V
    ensures Purged(S, next, V - base) && Closed(S, V - base, V)
    ensures forall q :: q in V - base ==> Reaches(S, p, q)
    ensures Valid(next)
  {
    PartialFinish(S, cur, next, D, p);
    PurgedValid(S, next, D + {p});
    assert V - base == D + {p};
    ClosedGrow(S, D, V, {p}, V);
    ReachesItself(S, p);
  }

  /** The part of the game world the NPC handlers work on (`SEnvir`), plus the id counters of `CreateNewObject`. */
  class Envir {
    var pages: map<int, NpcPage>
    var checks: map<int, NpcCheck>
    var actions: map<int, NpcAction>
    var buttons: map<int, NpcButton>
    var goods: map<int, NpcGood>
    var npcs: map<int, NpcInfo>
    var pageList: set<int>
    var checkList: set<int>
    var actionList: set<int>
    var buttonList: set<int>
    var goodList: set<int>
    var npcList: seq<int>
    /** Indices in `ItemInfoList.Binding` and `MapInfoList.Binding`. */
    var itemList: set<int>
    var mapList: set<int>
    var nextPage: int
    var nextCheck: int
    var nextAction: int
    var nextButton: int
    var nextGood: int

    ghost function State(): Store
      reads this
    {
      Store(pages, checks, actions, buttons, goods, npcs, pageList, checkList, actionList, buttonList, goodList, npcList)
    }

    /** The world is consistent and every counter is above every id it has handed out. */
    ghost predicate Valid()
      reads this
    {
      Consistent(State(), Next())
    }

    ghost function Next(): Counters
      reads this
    {
      Counters(nextPage, nextCheck, nextAction, nextButton, nextGood)
    }

    // ----- lookup -----

    /**
     * Depth-first search for page `target` from `page`, skipping pages already in `visited`:
     * the page itself, then its success page, then each check's fail page, then each
     * button's destination. Returns the page found and the grown visited set; `trace` lists
     * the pages examined, in the order they were examined.
     */
    method FindPageInHierarchy(page: Option<int>, target: int, visited: set<int>)
      returns (found: Option<int>, visited': set<int>, ghost trace: seq<int>)
      requires DialogGraph.Valid(State()) && OptIn(page, pages.Keys)
      decreases pages.Keys - visited, 1
      ensures found == SearchFrom(State(), page, target, visited).found
      ensures visited' == SearchFrom(State(), page, target, visited).visited
      ensures trace == SearchFrom(State(), page, target, visited).trace
    {
      if page.None? {
        return None, visited, [];
      }
      var p := page.value;
      if p in visited {
        return None, visited, [];
      }
      if p == target {
        return Some(p), visited + {p}, [p];
      }
      SearchFromSteps(State(), p, target, visited);
      var V1: set<int>;
      ghost var t0: seq<int>;
      found, V1, t0 := FindPageInHierarchy(pages[p].successPage, target, visited + {p});
      if found.Some? {
        return found, V1, [p] + t0;
      }
      var V2: set<int>;
      ghost var t1: seq<int>;
      found, V2, t1 := SearchFailPages(p, target, visited, V1);
      if found.Some? {
        return found, V2, [p] + t0 + t1;
      }
      ghost var t2: seq<int>;
      found, visited', t2 := SearchDestinations(p, target, visited, V2);
      trace := [p] + t0 + t1 + t2;
    }

    /** The loop of `FindPageInHierarchy` over the fail pages of p's checks, in list order, after p was added to `base`. */
    method SearchFailPages(p: int, target: int, ghost base: set<int>, visited: set<int>)
      returns (found: Option<int>, visited': set<int>, ghost trace: seq<int>)
      requires DialogGraph.Valid(State()) && p in pages && p !in base && base + {p} <= visited
      decreases pages.Keys - base, 0
      ensures found == SearchAll(State(), FailPages(State(), pages[p].checks), target, visited).found
      ensures visited' == SearchAll(State(), FailPages(State(), pages[p].checks), target, visited).visited
      ensures trace == SearchAll(State(), FailPages(State(), pages[p].checks), target, visited).trace
    {
      ghost var S := State();
      var list := pages[p].checks;
      ghost var fails := FailPages(S, list);
      assert fails[..0] == [];
      found, visited', trace := None, visited, [];
      var i := 0;
      while i < |list|
        invariant 0 <= i <= |list|
        invariant Search(None, visited', trace) == SearchAll(S, fails[..i], target, visited)
        invariant found.None?
      {
        var c := list[i];
        CheckBackRef(S, p, c);
        var child := checks[c].failPage;
        assert child == fails[i];
        SearchAllStep(S, fails, i, target, visited);
        var V: set<int>;
        ghost var t: seq<int>;
        found, V, t := FindPageInHierarchy(child, target, visited');
        visited', trace := V, trace + t;
        if found.Some? {
          SearchAllStops(S, fails, i + 1, target, visited);
          return;
        }
        i := i + 1;
      }
      assert fails[..|list|] == fails;
    }

    /** The loop of `FindPageInHierarchy` over the destinations of p's buttons, in list order, after p was added to `base`. */
    method SearchDestinations(p: int, target: int, ghost base: set<int>, visited: set<int>)
      returns (found: Option<int>, visited': set<int>, ghost trace: seq<int>)
      requires DialogGraph.Valid(State()) && p in pages && p !in base && base + {p} <= visited
      decreases pages.Keys - base, 0
      ensures found == SearchAll(State(), DestPages(State(), pages[p].buttons), target, visited).found
      ensures visited' == SearchAll(State(), DestPages(State(), pages[p].buttons), target, visited).visited
      ensures trace == SearchAll(State(), DestPages(State(), pages[p].buttons), target, visited).trace
    {
      ghost var S := State();
      var list := pages[p].buttons;
      ghost var dests := DestPages(S, list);
      assert dests[..0] == [];
      found, visited', trace := None, visited, [];
      var i := 0;
      while i < |list|
        invariant 0 <= i <= |list|
        invariant Search(None, visited', trace) == SearchAll(S, dests[..i], target, visited)
        invariant found.None?
      {
        var b := list[i];
        ButtonBackRef(S, p, b);
        var child := buttons[b].destinationPage;
        assert child == dests[i];
        SearchAllStep(S, dests, i, target, visited);
        var V: set<int>;
        ghost var t: seq<int>;
        found, V, t := FindPageInHierarchy(child, target, visited');
        visited', trace := V, trace + t;
        if found.Some? {
          SearchAllStops(S, dests, i + 1, target, visited);
          return;
        }
        i := i + 1;
      }
      assert dests[..|list|] == dests;
    }
    /**
     * Looks a page up by index: first in the page list, then, NPC by NPC in list order, the
     * NPC's entry page itself and a fresh depth-first search from it.
     */
    method FindPage(pageIndex: int) returns (page: Option<int>)
      requires Valid()
      ensures page == Located(State(), pageIndex)
      ensures page.Some? ==> pageIndex in pages
    {
      if Located(State(), pageIndex).Some? {
        LocatedInHeap(State(), pageIndex);
      }
      if pageIndex in pageList {
        return Some(pageIndex);
      }
      ghost var S := State();
      var i := 0;
      while i < |npcList|
        invariant 0 <= i <= |npcList|
        invariant forall j :: 0 <= j < i ==> !EntryReaches(S, npcList[j], pageIndex)
      {
        var entry := npcs[npcList[i]].entryPage;
        assert npcList[i] == S.npcList[i];
        assert OptIn(S.npcs[npcList[i]].entryPage, S.pages.Keys);
        if entry == Some(pageIndex) {
          ReachesItself(S, pageIndex);
          assert EntryReaches(S, npcList[i], pageIndex);
          return entry;
        }
        var found: Option<int>;
        var visited: set<int>;
        ghost var trace: seq<int>;
        found, visited, trace := FindPageInHierarchy(entry, pageIndex, {});
        SearchFromSound(S, entry, pageIndex, {});
        if found.Some? {
          assert EntryReaches(S, npcList[i], pageIndex);
          return found;
        }
        if entry.Some? && Reaches(S, entry.value, pageIndex) {
          ClosedHoldsReachable(S, visited, entry.value, pageIndex);
        }
        i := i + 1;
      }
      forall n | n in npcList
        ensures !EntryReaches(S, n, pageIndex)
      {
        var j :| 0 <= j < |npcList| && npcList[j] == n;
      }
      return None;
    }

    // ----- cascade delete -----

    /**
     * Deletes `page` and, through success, fail and destination edges, every page reachable
     * from it that is not in `visited`: each such page is cleared and leaves the page list, and
     * the records it lists leave their lists, checks and buttons with their edge cleared.
     * Nothing else changes; edges from other pages into deleted pages are left dangling.
     */
    method DeletePageRecursive(page: Option<int>, visited: set<int>) returns (visited': set<int>)
      requires DialogGraph.Valid(State()) && OptIn(page, pages.Keys) && visited <= pages.Keys
      modifies this`pages, this`checks, this`buttons, this`pageList, this`checkList, this`actionList, this`buttonList, this`goodList
      decreases pages.Keys - visited, 5
      ensures visited <= visited' <= pages.Keys
      ensures page.None? || page.value in visited ==> visited' == visited
      ensures page.Some? ==> page.value in visited'
      ensures Purged(old(State()), State(), visited' - visited)
      ensures Closed(old(State()), visited' - visited, visited')
      ensures page.Some? ==> forall q :: q in visited' - visited ==> Reaches(old(State()), page.value, q)
      ensures DialogGraph.Valid(State())
    {
      ghost var S := State();
      if page.None? || page.value in visited {
        PurgedNothing(S);
        return visited;
      }
      var p := page.value;
      InProgressStart(S, visited, p);
      ghost var D: set<int>;
      visited', D := ClearPage(p, visited + {p}, visited, S);
      ghost var cur := State();
      pageList := pageList - {p};
      PageDone(S, cur, State(), visited, visited', D, p);
    }

    /** The body of `DeletePageRecursive` for a page `p` just added to the visited set, up to removing it from the page list. */
    method ClearPage(p: int, V: set<int>, ghost base: set<int>, ghost S: Store) returns (V': set<int>, ghost D: set<int>)
      requires InProgress(S, State(), base, V, {}, p, {}, {}, {}, {}) && pages[p] == S.pages[p]
      modifies this`pages, this`checks, this`buttons, this`pageList, this`checkList, this`actionList, this`buttonList, this`goodList
      decreases pages.Keys - base, 4
      ensures InProgress(S, State(), base, V', D, p, Elems(S.pages[p].checks), Elems(S.pages[p].actions),
                         Elems(S.pages[p].buttons), Elems(S.pages[p].goods))
      ensures pages[p] == Cleared(S.pages[p])
      ensures Closed(S, {p}, V')
    {
      V', D := V, {};
      var succ := pages[p].successPage;
      if succ.Some? {
        V', D := DeleteChild(succ.value, p, V', base, S, D, {}, {}, {}, {});
        ReplacePage(p, pages[p].(successPage := None), V', base, S, D, {}, {}, {}, {});
      }
      V', D := ClearChecks(p, V', base, S, D);
      ClearActions(p, V', base, S, D);
      ghost var V1 := V';
      V', D := ClearButtons(p, V', base, S, D);
      FailsInGrow(S, S.pages[p].checks, |S.pages[p].checks|, V1, V');
      ClearGoods(p, V', base, S, D);
      EdgesOfPageIn(S, p, V');
    }

    /** One nested `DeletePageRecursive` call on an edge target of the page `p` being deleted. */
    method DeleteChild(child: int, p: int, V: set<int>, ghost base: set<int>, ghost S: Store, ghost D: set<int>,
                       ghost C: set<int>, ghost A: set<int>, ghost B: set<int>, ghost G: set<int>)
      returns (V': set<int>, ghost D': set<int>)
      requires InProgress(S, State(), base, V, D, p, C, A, B, G) && Edge(S, p, child)
      modifies this`pages, this`checks, this`buttons, this`pageList, this`checkList, this`actionList, this`buttonList, this`goodList
      decreases pages.Keys - base, 0
      ensures InProgress(S, State(), base, V', D', p, C, A, B, G)
      ensures child in V' && V <= V'
      ensures pages[p] == old(pages[p])
    {
      ghost var cur := State();
      InProgressValid(S, cur, base, V, D, p, C, A, B, G);
      EdgeTargetExists(S, p, child);
      V' := DeletePageRecursive(Some(child), V);
      ChildDone(S, cur, State(), base, V, V', D, p, child, C, A, B, G);
      D' := D + (V' - V);
    }

    /** Replaces page `p`, part-way through its deletion, by a further cleared form of it. */
    method ReplacePage(p: int, pg: NpcPage, ghost V: set<int>, ghost base: set<int>, ghost S: Store, ghost D: set<int>,
                       ghost C: set<int>, ghost A: set<int>, ghost B: set<int>, ghost G: set<int>)
      requires InProgress(S, State(), base, V, D, p, C, A, B, G) && Shrunk(pg, S.pages[p])
      modifies this`pages
      ensures InProgress(S, State(), base, V, D, p, C, A, B, G) && pages[p] == pg
    {
      ghost var cur := State();
      pages := pages[p := pg];
      PageStep(S, cur, State(), D, p, cur.pages[p], pg, C, A, B, G);
    }

    /** Deletes the fail pages of p's checks and drops the checks from the check list; then empties p's list. */
    method ClearChecks(p: int, V: set<int>, ghost base: set<int>, ghost S: Store, ghost D: set<int>)
      returns (V': set<int>, ghost D': set<int>)
      requires InProgress(S, State(), base, V, D, p, {}, {}, {}, {})
      requires pages[p] == S.pages[p].(successPage := None)
      modifies this`pages, this`checks, this`buttons, this`pageList, this`checkList, this`actionList, this`buttonList, this`goodList
      decreases pages.Keys - base, 3
      ensures InProgress(S, State(), base, V', D', p, Elems(S.pages[p].checks), {}, {}, {})
      ensures pages[p] == S.pages[p].(successPage := None, checks := [])
      ensures V <= V'
      ensures FailsIn(S, S.pages[p].checks, |S.pages[p].checks|, V')
    {
      V', D' := ClearEachCheck(p, V, base, S, D);
      ReplacePage(p, pages[p].(checks := []), V', base, S, D', Elems(S.pages[p].checks), {}, {}, {});
    }

    /** The loop over a snapshot of p's checks, in list order. */
    method ClearEachCheck(p: int, V: set<int>, ghost base: set<int>, ghost S: Store, ghost D: set<int>)
      returns (V': set<int>, ghost D': set<int>)
      requires InProgress(S, State(), base, V, D, p, {}, {}, {}, {})
      requires pages[p].checks == S.pages[p].checks
      modifies this`pages, this`checks, this`buttons, this`pageList, this`checkList, this`actionList, this`buttonList, this`goodList
      decreases pages.Keys - base, 2
      ensures InProgress(S, State(), base, V', D', p, Elems(S.pages[p].checks), {}, {}, {})
      ensures pages[p] == old(pages[p]) && V <= V'
      ensures FailsIn(S, S.pages[p].checks, |S.pages[p].checks|, V')
    {
      var list := pages[p].checks;
      PageListsDistinct(S, p);
      V', D' := V, D;
      var i := 0;
      while i < |list|
        invariant 0 <= i <= |list|
        invariant InProgress(S, State(), base, V', D', p, Elems(list[..i]), {}, {}, {})
        invariant pages[p] == old(pages[p]) && V <= V'
        invariant FailsIn(S, list, i, V')
      {
        DistinctAt(list, i);
        ghost var V0 := V';
        V', D' := ClearCheck(p, list[i], i, V', base, S, D', Elems(list[..i]));
        FailsInStep(S, list, i, V0, V');
        ElemsPrefix(list, i);
        i := i + 1;
      }
      assert list[..|list|] == list;
    }

    /** One round of the loop over p's checks: the check `c`, at position `i` of the list. */
    method ClearCheck(p: int, c: int, ghost i: int, V: set<int>, ghost base: set<int>, ghost S: Store, ghost D: set<int>, ghost C: set<int>)
      returns (V': set<int>, ghost D': set<int>)
      requires InProgress(S, State(), base, V, D, p, C, {}, {}, {})
      requires 0 <= i < |S.pages[p].checks| && c == S.pages[p].checks[i] && c !in C
      modifies this`pages, this`checks, this`buttons, this`pageList, this`checkList, this`actionList, this`buttonList, this`goodList
      decreases pages.Keys - base, 1
      ensures InProgress(S, State(), base, V', D', p, C + {c}, {}, {}, {})
      ensures pages[p] == old(pages[p]) && V <= V' && OptIn(FailOf(S, c), V')
    {
      CheckUntouched(S, State(), D, p, C, {}, {}, {}, i);
      V', D' := V, D;
      var fail := checks[c].failPage;
      if fail.Some? {
        V', D' := DeleteChild(fail.value, p, V, base, S, D, C, {}, {}, {});
      }
      DropCheck(p, c, i, V', base, S, D', C);
    }

    /** The end of a round of the loop over p's checks: clear the fail page of `c` if it has one, and drop `c` from the check list. */
    method DropCheck(p: int, c: int, ghost i: int, ghost V: set<int>, ghost base: set<int>, ghost S: Store, ghost D: set<int>, ghost C: set<int>)
      requires InProgress(S, State(), base, V, D, p, C, {}, {}, {})
      requires 0 <= i < |S.pages[p].checks| && c == S.pages[p].checks[i] && c !in C
      modifies this`checks, this`checkList
      ensures InProgress(S, State(), base, V, D, p, C + {c}, {}, {}, {})
    {
      ghost var cur := State();
      CheckUntouched(S, cur, D, p, C, {}, {}, {}, i);
      if checks[c].failPage.Some? {
        checks := checks[c := checks[c].(failPage := None)];
      }
      checkList := checkList - {c};
      CheckCleared(S, cur, State(), base, V, D, p, C, {}, {}, {}, c, i);
    }

    /** The loop over a snapshot of p's actions: drop each from the action list; then empty p's list. */
    method ClearActions(p: int, V: set<int>, ghost base: set<int>, ghost S: Store, ghost D: set<int>)
      requires p in S.pages
      requires InProgress(S, State(), base, V, D, p, Elems(S.pages[p].checks), {}, {}, {})
      requires pages[p] == S.pages[p].(successPage := None, checks := [])
      modifies this`pages, this`actionList
      ensures InProgress(S, State(), base, V, D, p, Elems(S.pages[p].checks), Elems(S.pages[p].actions), {}, {})
      ensures pages[p] == S.pages[p].(successPage := None, checks := [], actions := [])
    {
      ghost var C := Elems(S.pages[p].checks);
      var list := pages[p].actions;
      var i := 0;
      while i < |list|
        invariant 0 <= i <= |list|
        invariant InProgress(S, State(), base, V, D, p, C, Elems(list[..i]), {}, {})
        invariant pages[p] == old(pages[p])
      {
        ClearAction(p, list[i], V, base, S, D, C, Elems(list[..i]));
        ElemsPrefix(list, i);
        i := i + 1;
      }
      assert list[..|list|] == list;
      ReplacePage(p, pages[p].(actions := []), V, base, S, D, C, Elems(list), {}, {});
    }

    /** One round of the loop over p's actions. */
    method ClearAction(p: int, a: int, ghost V: set<int>, ghost base: set<int>, ghost S: Store, ghost D: set<int>,
                       ghost C: set<int>, ghost A: set<int>)
      requires InProgress(S, State(), base, V, D, p, C, A, {}, {}) && a in S.pages[p].actions
      modifies this`actionList
      ensures InProgress(S, State(), base, V, D, p, C, A + {a}, {}, {})
    {
      ghost var cur := State();
      actionList := actionList - {a};
      ActionStep(S, cur, State(), D, p, cur.pages[p], C, A, {}, {}, a);
    }

    /** Deletes the destinations of p's buttons and drops the buttons from the button list; then empties p's list. */
    method ClearButtons(p: int, V: set<int>, ghost base: set<int>, ghost S: Store, ghost D: set<int>)
      returns (V': set<int>, ghost D': set<int>)
      requires p in S.pages
      requires InProgress(S, State(), base, V, D, p, Elems(S.pages[p].checks), Elems(S.pages[p].actions), {}, {})
      requires pages[p] == S.pages[p].(successPage := None, checks := [], actions := [])
      modifies this`pages, this`checks, this`buttons, this`pageList, this`checkList, this`actionList, this`buttonList, this`goodList
      decreases pages.Keys - base, 3
      ensures InProgress(S, State(), base, V', D', p, Elems(S.pages[p].checks), Elems(S.pages[p].actions), Elems(S.pages[p].buttons), {})
      ensures pages[p] == S.pages[p].(successPage := None, checks := [], actions := [], buttons := [])
      ensures V <= V'
      ensures DestsIn(S, S.pages[p].buttons, |S.pages[p].buttons|, V')
    {
      V', D' := ClearEachButton(p, V, base, S, D);
      ReplacePage(p, pages[p].(buttons := []), V', base, S, D', Elems(S.pages[p].checks), Elems(S.pages[p].actions),
                  Elems(S.pages[p].buttons), {});
    }

    /** The loop over a snapshot of p's buttons, in list order. */
    method ClearEachButton(p: int, V: set<int>, ghost base: set<int>, ghost S: Store, ghost D: set<int>)
      returns (V': set<int>, ghost D': set<int>)
      requires p in S.pages
      requires InProgress(S, State(), base, V, D, p, Elems(S.pages[p].checks), Elems(S.pages[p].actions), {}, {})
      requires pages[p].buttons == S.pages[p].buttons
      modifies this`pages, this`checks, this`buttons, this`pageList, this`checkList, this`actionList, this`buttonList, this`goodList
      decreases pages.Keys - base, 2
      ensures InProgress(S, State(), base, V', D', p, Elems(S.pages[p].checks), Elems(S.pages[p].actions), Elems(S.pages[p].buttons), {})
      ensures pages[p] == old(pages[p]) && V <= V'
      ensures DestsIn(S, S.pages[p].buttons, |S.pages[p].buttons|, V')
    {
      ghost var C := Elems(S.pages[p].checks);
      ghost var A := Elems(S.pages[p].actions);
      var list := pages[p].buttons;
      PageListsDistinct(S, p);
      V', D' := V, D;
      var i := 0;
      while i < |list|
        invariant 0 <= i <= |list|
        invariant InProgress(S, State(), base, V', D', p, C, A, Elems(list[..i]), {})
        invariant pages[p] == old(pages[p]) && V <= V'
        invariant DestsIn(S, list, i, V')
      {
        DistinctAt(list, i);
        ghost var V0 := V';
        V', D' := ClearButton(p, list[i], i, V', base, S, D', C, A, Elems(list[..i]));
        DestsInStep(S, list, i, V0, V');
        ElemsPrefix(list, i);
        i := i + 1;
      }
      assert list[..|list|] == list;
    }

    /** One round of the loop over p's buttons: the button `b`, at position `i` of the list. */
    method ClearButton(p: int, b: int, ghost i: int, V: set<int>, ghost base: set<int>, ghost S: Store, ghost D: set<int>,
                       ghost C: set<int>, ghost A: set<int>, ghost B: set<int>)
      returns (V': set<int>, ghost D': set<int>)
      requires InProgress(S, State(), base, V, D, p, C, A, B, {})
      requires 0 <= i < |S.pages[p].buttons| && b == S.pages[p].buttons[i] && b !in B
      modifies this`pages, this`checks, this`buttons, this`pageList, this`checkList, this`actionList, this`buttonList, this`goodList
      decreases pages.Keys - base, 1
      ensures InProgress(S, State(), base, V', D', p, C, A, B + {b}, {})
      ensures pages[p] == old(pages[p]) && V <= V' && OptIn(DestOf(S, b), V')
    {
      ButtonUntouched(S, State(), D, p, C, A, B, {}, i);
      V', D' := V, D;
      var dest := buttons[b].destinationPage;
      if dest.Some? {
        V', D' := DeleteChild(dest.value, p, V, base, S, D, C, A, B, {});
      }
      DropButton(p, b, i, V', base, S, D', C, A, B);
    }

    /** The end of a round of the loop over p's buttons: clear the destination of `b` if it has one, and drop `b` from the button list. */
    method DropButton(p: int, b: int, ghost i: int, ghost V: set<int>, ghost base: set<int>, ghost S: Store, ghost D: set<int>,
                      ghost C: set<int>, ghost A: set<int>, ghost B: set<int>)
      requires InProgress(S, State(), base, V, D, p, C, A, B, {})
      requires 0 <= i < |S.pages[p].buttons| && b == S.pages[p].buttons[i] && b !in B
      modifies this`buttons, this`buttonList
      ensures InProgress(S, State(), base, V, D, p, C, A, B + {b}, {})
    {
      ghost var cur := State();
      ButtonUntouched(S, cur, D, p, C, A, B, {}, i);
      if buttons[b].destinationPage.Some? {
        buttons := buttons[b := buttons[b].(destinationPage := None)];
      }
      buttonList := buttonList - {b};
      ButtonCleared(S, cur, State(), base, V, D, p, C, A, B, {}, b, i);
    }

    /** The loop over a snapshot of p's goods: drop each from the goods list; then empty p's list. */
    method ClearGoods(p: int, V: set<int>, ghost base: set<int>, ghost S: Store, ghost D: set<int>)
      requires p in S.pages
      requires InProgress(S, State(), base, V, D, p, Elems(S.pages[p].checks), Elems(S.pages[p].actions), Elems(S.pages[p].buttons), {})
      requires pages[p] == S.pages[p].(successPage := None, checks := [], actions := [], buttons := [])
      modifies this`pages, this`goodList
      ensures InProgress(S, State(), base, V, D, p, Elems(S.pages[p].checks), Elems(S.pages[p].actions),
                         Elems(S.pages[p].buttons), Elems(S.pages[p].goods))
      ensures pages[p] == Cleared(S.pages[p])
    {
      ghost var C := Elems(S.pages[p].checks);
      ghost var A := Elems(S.pages[p].actions);
      ghost var B := Elems(S.pages[p].buttons);
      var list := pages[p].goods;
      var i := 0;
      while i < |list|
        invariant 0 <= i <= |list|
        invariant InProgress(S, State(), base, V, D, p, C, A, B, Elems(list[..i]))
        invariant pages[p] == old(pages[p])
      {
        ClearGood(p, list[i], V, base, S, D, C, A, B, Elems(list[..i]));
        ElemsPrefix(list, i);
        i := i + 1;
      }
      assert list[..|list|] == list;
      ReplacePage(p, pages[p].(goods := []), V, base, S, D, C, A, B, Elems(list));
    }

    /** One round of the loop over p's goods. */
    method ClearGood(p: int, g: int, ghost V: set<int>, ghost base: set<int>, ghost S: Store, ghost D: set<int>,
                     ghost C: set<int>, ghost A: set<int>, ghost B: set<int>, ghost G: set<int>)
      requires InProgress(S, State(), base, V, D, p, C, A, B, G) && g in S.pages[p].goods
      modifies this`goodList
      ensures InProgress(S, State(), base, V, D, p, C, A, B, G + {g})
    {
      ghost var cur := State();
      goodList := goodList - {g};
      GoodStep(S, cur, State(), D, p, cur.pages[p], C, A, B, G, g);
    }

    // ----- handlers -----

    /** `OnPostCreateEntryPage`: gives an NPC without entry page a new, bare one. */
    method CreateEntryPage(claim: Option<string>, npcIndex: int, description: string, dialogType: int, say: string)
      returns (reply: Reply)
      requires Valid()
      modifies this`pages, this`pageList, this`npcs, this`nextPage
      ensures Valid()
      ensures reply == if !HasPermission(claim, SuperAdmin) then Failed(Forbidden)
                       else if npcIndex !in old(npcList) then Failed(NpcMissing)
                       else if old(npcs[npcIndex].entryPage).Some? then Failed(EntryPageExists)
                       else Created(old(nextPage))
      ensures reply.Failed? ==> unchanged(this)
      ensures reply.Created? ==>
        && nextPage == old(nextPage) + 1
        && State() == WithEntry(WithNewPage(old(State()), old(nextPage), NewPage(description, dialogType, say)), npcIndex, Some(old(nextPage)))
    {
      if !HasPermission(claim, SuperAdmin) {
        return Failed(Forbidden);
      }
      if npcIndex !in npcList {
        return Failed(NpcMissing);
      }
      if npcs[npcIndex].entryPage.Some? {
        return Failed(EntryPageExists);
      }
      ghost var s, n := State(), Next();
      var pg := NewPage(description, dialogType, say);
      var id := InsertPage(pg);
      SetEntryPage(npcIndex, Some(id));
      EntryPageCreatedSound(s, npcIndex, pg, n, Next());
      reply := Created(id);
    }

    /** `NPCPageList.CreateNewObject()` with the page's fields set: the page joins the heap and the page list. */
    method InsertPage(pg: NpcPage) returns (id: int)
      modifies this`pages, this`pageList, this`nextPage
      ensures id == old(nextPage) && nextPage == id + 1
      ensures State() == WithNewPage(old(State()), id, pg)
    {
      id := nextPage;
      nextPage := nextPage + 1;
      pages := pages[id := pg];
      pageList := pageList + {id};
    }

    /** `npc.EntryPage = e`. */
    method SetEntryPage(n: int, e: Option<int>)
      requires n in npcs
      modifies this`npcs
      ensures State() == WithEntry(old(State()), n, e)
    {
      npcs := npcs[n := npcs[n].(entryPage := e)];
    }

    /** `OnPostDeleteEntryPage`: cascades through the NPC's entry page and clears it. */
    method DeleteEntryPage(claim: Option<string>, npcIndex: int) returns (reply: Reply)
      requires Valid()
      modifies this`pages, this`checks, this`buttons, this`pageList, this`checkList, this`actionList, this`buttonList, this`goodList, this`npcs
      ensures Valid()
      ensures reply == if !HasPermission(claim, SuperAdmin) then Failed(Forbidden)
                       else if npcIndex !in old(npcList) then Failed(NpcMissing)
                       else if old(npcs[npcIndex].entryPage).None? then Failed(NoEntryPage)
                       else Done
      ensures reply.Failed? ==> unchanged(this)
      ensures reply.Done? ==> EntryPageDropped(old(State()), State(), npcIndex)
    {
      if !HasPermission(claim, SuperAdmin) {
        return Failed(Forbidden);
      }
      if npcIndex !in npcList {
        return Failed(NpcMissing);
      }
      if npcs[npcIndex].entryPage.None? {
        return Failed(NoEntryPage);
      }
      DropEntryPage(npcIndex);
      reply := Done;
    }

    /** `OnPostDeleteNpc`: cascades through the NPC's entry page, if any, and takes the NPC off the NPC list. */
    method DeleteNpc(claim: Option<string>, npcIndex: int) returns (reply: Reply)
      requires Valid()
      modifies this`pages, this`checks, this`buttons, this`pageList, this`checkList, this`actionList, this`buttonList, this`goodList
      modifies this`npcs, this`npcList
      ensures Valid()
      ensures reply == if !HasPermission(claim, SuperAdmin) then Failed(Forbidden)
                       else if npcIndex !in old(npcList) then Failed(NpcMissing)
                       else Done
      ensures reply.Failed? ==> unchanged(this)
      ensures reply.Done? ==>
        && npcIndex !in npcList && npcList == Without(old(npcList), npcIndex)
        && EntryPageDropped(old(State()), State().(npcList := old(npcList)), npcIndex)
    {
      if !HasPermission(claim, SuperAdmin) {
        return Failed(Forbidden);
      }
      if npcIndex !in npcList {
        return Failed(NpcMissing);
      }
      DropEntryPage(npcIndex);
      RemoveNpc(npcIndex);
      reply := Done;
    }

    /** `NPCInfoList.Remove(npc)`: the NPC leaves the NPC list, and nothing else changes. */
    method RemoveNpc(n: int)
      requires Valid()
      modifies this`npcList
      ensures Valid() && n !in npcList && npcList == Without(old(npcList), n)
      ensures State().(npcList := old(npcList)) == old(State())
    {
      ghost var s := State();
      NpcRemovedSound(s, n, Next());
      npcList := RemoveFirst(npcList, n);
      assert State() == s.(npcList := RemoveFirst(s.npcList, n));
    }

    /** `DeletePageRecursive(npc.EntryPage)` followed by `npc.EntryPage = null`, when the NPC has an entry page. */
    method DropEntryPage(n: int)
      requires Valid() && n in npcList
      modifies this`pages, this`checks, this`buttons, this`pageList, this`checkList, this`actionList, this`buttonList, this`goodList, this`npcs
      ensures Valid() && npcList == old(npcList)
      ensures EntryPageDropped(old(State()), State(), n)
    {
      ghost var s := State();
      if npcs[n].entryPage.None? {
        NothingDropped(s, n);
        return;
      }
      DeleteReachable(npcs[n].entryPage.value);
      ghost var mid := State();
      SetEntryPage(n, None);
      EntryClearedSound(mid, n, Next());
      EntryPageDroppedAfter(s, mid, n);
    }

    /** `DeletePageRecursive(page)` from a fresh visited set: every page reachable from `p` is deleted. */
    method DeleteReachable(p: int)
      requires Valid() && p in pages
      modifies this`pages, this`checks, this`buttons, this`pageList, this`checkList, this`actionList, this`buttonList, this`goodList
      ensures Valid() && Purged(old(State()), State(), ReachableFrom(old(State()), p))
    {
      ghost var s := State();
      var visited := DeletePageRecursive(Some(p), {});
      assert visited - {} == visited;
      VisitedIsReachable(s, p, visited);
      PurgedSound(s, Next(), State(), visited);
    }

    /** `OnPostAddCheck`: a new check, with the item reference when `itemIndex > 0`, at the end of the page's checks. */
    method AddCheck(claim: Option<string>, pageIndex: int, checkType: int, operator: int, stringParam: string,
                    intParam1: int, intParam2: int, itemIndex: int) returns (reply: Reply)
      requires Valid()
      modifies this`pages, this`checks, this`checkList, this`nextCheck
      ensures Valid()
      ensures reply == if !HasPermission(claim, SuperAdmin) then Failed(Forbidden)
                       else if Located(old(State()), pageIndex).None? then Failed(PageMissing)
                       else Created(old(nextCheck))
      ensures reply.Failed? ==> unchanged(this)
      ensures reply.Created? ==>
        && pageIndex in old(pages) && nextCheck == old(nextCheck) + 1
        && State() == WithCheck(old(State()), old(nextCheck),
             NpcCheck(Some(pageIndex), checkType, operator, stringParam, intParam1, intParam2,
                      if itemIndex > 0 then Lookup(itemList, itemIndex) else None, None))
    {
      if !HasPermission(claim, SuperAdmin) {
        return Failed(Forbidden);
      }
      var page := FindPage(pageIndex);
      if page.None? {
        return Failed(PageMissing);
      }
      var item := if itemIndex > 0 then Lookup(itemList, itemIndex) else None;
      var check := NpcCheck(page, checkType, operator, stringParam, intParam1, intParam2, item, None);
      ghost var s, n := State(), Next();
      var id := InsertCheck(check);
      CheckAddedSound(s, check, n, Next());
      reply := Created(id);
    }

    /** `CreateNewObject` for a check, then `check.Page = page; page.Checks.Add(check)`. */
    method InsertCheck(check: NpcCheck) returns (id: int)
      requires check.page.Some? && check.page.value in pages
      modifies this`pages, this`checks, this`checkList, this`nextCheck
      ensures id == old(nextCheck) && nextCheck == id + 1
      ensures State() == WithCheck(old(State()), id, check)
    {
      id := nextCheck;
      nextCheck := nextCheck + 1;
      checks := checks[id := check];
      checkList := checkList + {id};
      var q := check.page.value;
      pages := pages[q := pages[q].(checks := pages[q].checks + [id])];
    }

    /** `OnPostAddAction`: a new action, with item and map references when their indices are positive, at the end of the page's actions. */
    method AddAction(claim: Option<string>, pageIndex: int, actionType: int, stringParam: string,
                     intParam1: int, intParam2: int, itemIndex: int, mapIndex: int) returns (reply: Reply)
      requires Valid()
      modifies this`pages, this`actions, this`actionList, this`nextAction
      ensures Valid()
      ensures reply == if !HasPermission(claim, SuperAdmin) then Failed(Forbidden)
                       else if Located(old(State()), pageIndex).None? then Failed(PageMissing)
                       else Created(old(nextAction))
      ensures reply.Failed? ==> unchanged(this)
      ensures reply.Created? ==>
        && pageIndex in old(pages) && nextAction == old(nextAction) + 1
        && State() == WithAction(old(State()), old(nextAction),
             NpcAction(Some(pageIndex), actionType, stringParam, intParam1, intParam2,
                       if itemIndex > 0 then Lookup(itemList, itemIndex) else None,
                       if mapIndex > 0 then Lookup(mapList, mapIndex) else None))
    {
      if !HasPermission(claim, SuperAdmin) {
        return Failed(Forbidden);
      }
      var page := FindPage(pageIndex);
      if page.None? {
        return Failed(PageMissing);
      }
      var item := if itemIndex > 0 then Lookup(itemList, itemIndex) else None;
      var map' := if mapIndex > 0 then Lookup(mapList, mapIndex) else None;
      var action := NpcAction(page, actionType, stringParam, intParam1, intParam2, item, map');
      ghost var s, n := State(), Next();
      var id := InsertAction(action);
      ActionAddedSound(s, action, n, Next());
      reply := Created(id);
    }

    /** `CreateNewObject` for an action, then `action.Page = page; page.Actions.Add(action)`. */
    method InsertAction(action: NpcAction) returns (id: int)
      requires action.page.Some? && action.page.value in pages
      modifies this`pages, this`actions, this`actionList, this`nextAction
      ensures id == old(nextAction) && nextAction == id + 1
      ensures State() == WithAction(old(State()), id, action)
    {
      id := nextAction;
      nextAction := nextAction + 1;
      actions := actions[id := action];
      actionList := actionList + {id};
      var q := action.page.value;
      pages := pages[q := pages[q].(actions := pages[q].actions + [id])];
    }

    /** `OnPostAddButton`: a new button without destination at the end of the page's buttons. */
    method AddButton(claim: Option<string>, pageIndex: int, buttonId: int) returns (reply: Reply)
      requires Valid()
      modifies this`pages, this`buttons, this`buttonList, this`nextButton
      ensures Valid()
      ensures reply == if !HasPermission(claim, SuperAdmin) then Failed(Forbidden)
                       else if Located(old(State()), pageIndex).None? then Failed(PageMissing)
                       else Created(old(nextButton))
      ensures reply.Failed? ==> unchanged(this)
      ensures reply.Created? ==>
        && pageIndex in old(pages) && nextButton == old(nextButton) + 1
        && State() == WithButton(old(State()), old(nextButton), NpcButton(Some(pageIndex), buttonId, None))
    {
      if !HasPermission(claim, SuperAdmin) {
        return Failed(Forbidden);
      }
      var page := FindPage(pageIndex);
      if page.None? {
        return Failed(PageMissing);
      }
      var button := NpcButton(page, buttonId, None);
      ghost var s, n := State(), Next();
      var id := InsertButton(button);
      ButtonAddedSound(s, button, n, Next());
      reply := Created(id);
    }

    /** `CreateNewObject` for a button, then `button.Page = page; page.Buttons.Add(button)`. */
    method InsertButton(button: NpcButton) returns (id: int)
      requires button.page.Some? && button.page.value in pages
      modifies this`pages, this`buttons, this`buttonList, this`nextButton
      ensures id == old(nextButton) && nextButton == id + 1
      ensures State() == WithButton(old(State()), id, button)
    {
      id := nextButton;
      nextButton := nextButton + 1;
      buttons := buttons[id := button];
      buttonList := buttonList + {id};
      var q := button.page.value;
      pages := pages[q := pages[q].(buttons := pages[q].buttons + [id])];
    }

    /** `OnPostAddGood`: a new good for an existing item, its rate clamped, at the end of the page's goods. */
    method AddGood(claim: Option<string>, pageIndex: int, itemIndex: int, rate: real) returns (reply: Reply)
      requires Valid()
      modifies this`pages, this`goods, this`goodList, this`nextGood
      ensures Valid()
      ensures reply == if !HasPermission(claim, SuperAdmin) then Failed(Forbidden)
                       else if Located(old(State()), pageIndex).None? then Failed(PageMissing)
                       else if itemIndex !in itemList then Failed(ItemMissing)
                       else Created(old(nextGood))
      ensures reply.Failed? ==> unchanged(this)
      ensures reply.Created? ==>
        && pageIndex in old(pages) && nextGood == old(nextGood) + 1
        && State() == WithGood(old(State()), old(nextGood), NpcGood(Some(pageIndex), Some(itemIndex), ClampRate(rate)))
    {
      if !HasPermission(claim, SuperAdmin) {
        return Failed(Forbidden);
      }
      var page := FindPage(pageIndex);
      if page.None? {
        return Failed(PageMissing);
      }
      var item := Lookup(itemList, itemIndex);
      if item.None? {
        return Failed(ItemMissing);
      }
      var good := NpcGood(page, item, ClampRate(rate));
      ghost var s, n := State(), Next();
      var id := InsertGood(good);
      GoodAddedSound(s, good, n, Next());
      reply := Created(id);
    }

    /** `CreateNewObject` for a good, then `good.Page = page; page.Goods.Add(good)`. */
    method InsertGood(good: NpcGood) returns (id: int)
      requires good.page.Some? && good.page.value in pages
      modifies this`pages, this`goods, this`goodList, this`nextGood
      ensures id == old(nextGood) && nextGood == id + 1
      ensures State() == WithGood(old(State()), id, good)
    {
      id := nextGood;
      nextGood := nextGood + 1;
      goods := goods[id := good];
      goodList := goodList + {id};
      var q := good.page.value;
      pages := pages[q := pages[q].(goods := pages[q].goods + [id])];
    }

    /** `OnPostDeleteCheck`: the check leaves its owner's list, then the check list. */
    method DeleteCheck(claim: Option<string>, checkIndex: int) returns (reply: Reply)
      requires Valid()
      modifies this`pages, this`checkList
      ensures Valid()
      ensures reply == if !HasPermission(claim, SuperAdmin) then Failed(Forbidden)
                       else if checkIndex !in old(checkList) then Failed(CheckMissing)
                       else Done
      ensures reply.Failed? ==> unchanged(this)
      ensures reply.Done? ==> State() == WithoutCheck(old(State()), checkIndex)
    {
      if !HasPermission(claim, SuperAdmin) {
        return Failed(Forbidden);
      }
      if checkIndex !in checkList {
        return Failed(CheckMissing);
      }
      ghost var s, n := State(), Next();
      RemoveCheck(checkIndex);
      CheckDeletedSound(s, checkIndex, n);
      reply := Done;
    }

    /** `check.Page?.Checks?.Remove(check)`, then the check leaves the check list. */
    method RemoveCheck(c: int)
      requires Valid() && c in checkList
      modifies this`pages, this`checkList
      ensures State() == WithoutCheck(old(State()), c)
    {
      var owner := checks[c].page;
      if owner.Some? && owner.value in pages {
        var q := owner.value;
        pages := pages[q := pages[q].(checks := RemoveFirst(pages[q].checks, c))];
      }
      checkList := checkList - {c};
    }

    /** `OnPostDeleteAction`: the action leaves its owner's list, then the action list. */
    method DeleteAction(claim: Option<string>, actionIndex: int) returns (reply: Reply)
      requires Valid()
      modifies this`pages, this`actionList
      ensures Valid()
      ensures reply == if !HasPermission(claim, SuperAdmin) then Failed(Forbidden)
                       else if actionIndex !in old(actionList) then Failed(ActionMissing)
                       else Done
      ensures reply.Failed? ==> unchanged(this)
      ensures reply.Done? ==> State() == WithoutAction(old(State()), actionIndex)
    {
      if !HasPermission(claim, SuperAdmin) {
        return Failed(Forbidden);
      }
      if actionIndex !in actionList {
        return Failed(ActionMissing);
      }
      ghost var s, n := State(), Next();
      RemoveAction(actionIndex);
      ActionDeletedSound(s, actionIndex, n);
      reply := Done;
    }

    /** `action.Page?.Actions?.Remove(action)`, then the action leaves the action list. */
    method RemoveAction(a: int)
      requires Valid() && a in actionList
      modifies this`pages, this`actionList
      ensures State() == WithoutAction(old(State()), a)
    {
      var owner := actions[a].page;
      if owner.Some? && owner.value in pages {
        var q := owner.value;
        pages := pages[q := pages[q].(actions := RemoveFirst(pages[q].actions, a))];
      }
      actionList := actionList - {a};
    }

    /** `OnPostDeleteButton`: the button leaves its owner's list, then the button list. */
    method DeleteButton(claim: Option<string>, buttonIndex: int) returns (reply: Reply)
      requires Valid()
      modifies this`pages, this`buttonList
      ensures Valid()
      ensures reply == if !HasPermission(claim, SuperAdmin) then Failed(Forbidden)
                       else if buttonIndex !in old(buttonList) then Failed(ButtonMissing)
                       else Done
      ensures reply.Failed? ==> unchanged(this)
      ensures reply.Done? ==> State() == WithoutButton(old(State()), buttonIndex)
    {
      if !HasPermission(claim, SuperAdmin) {
        return Failed(Forbidden);
      }
      if buttonIndex !in buttonList {
        return Failed(ButtonMissing);
      }
      ghost var s, n := State(), Next();
      RemoveButton(buttonIndex);
      ButtonDeletedSound(s, buttonIndex, n);
      reply := Done;
    }

    /** `button.Page?.Buttons?.Remove(button)`, then the button leaves the button list. */
    method RemoveButton(b: int)
      requires Valid() && b in buttonList
      modifies this`pages, this`buttonList
      ensures State() == WithoutButton(old(State()), b)
    {
      var owner := buttons[b].page;
      if owner.Some? && owner.value in pages {
        var q := owner.value;
        pages := pages[q := pages[q].(buttons := RemoveFirst(pages[q].buttons, b))];
      }
      buttonList := buttonList - {b};
    }

    /** `OnPostDeleteGood`: the good leaves its owner's list, then the good list. */
    method DeleteGood(claim: Option<string>, goodIndex: int) returns (reply: Reply)
      requires Valid()
      modifies this`pages, this`goodList
      ensures Valid()
      ensures reply == if !HasPermission(claim, SuperAdmin) then Failed(Forbidden)
                       else if goodIndex !in old(goodList) then Failed(GoodMissing)
                       else Done
      ensures reply.Failed? ==> unchanged(this)
      ensures reply.Done? ==> State() == WithoutGood(old(State()), goodIndex)
    {
      if !HasPermission(claim, SuperAdmin) {
        return Failed(Forbidden);
      }
      if goodIndex !in goodList {
        return Failed(GoodMissing);
      }
      ghost var s, n := State(), Next();
      RemoveGood(goodIndex);
      GoodDeletedSound(s, goodIndex, n);
      reply := Done;
    }

    /** `good.Page?.Goods?.Remove(good)`, then the good leaves the good list. */
    method RemoveGood(g: int)
      requires Valid() && g in goodList
      modifies this`pages, this`goodList
      ensures State() == WithoutGood(old(State()), g)
    {
      var owner := goods[g].page;
      if owner.Some? && owner.value in pages {
        var q := owner.value;
        pages := pages[q := pages[q].(goods := RemoveFirst(pages[q].goods, g))];
      }
      goodList := goodList - {g};
    }

    /** `OnPostUpdateButton`: sets the button id and points the button at `FindPage(destPageIndex)`, or at nothing when the index is not positive. */
    method UpdateButton(claim: Option<string>, buttonIndex: int, buttonId: int, destPageIndex: int) returns (reply: Reply)
      requires Valid()
      modifies this`buttons
      ensures Valid()
      ensures reply == if !HasPermission(claim, SuperAdmin) then Failed(Forbidden)
                       else if buttonIndex !in old(buttonList) then Failed(ButtonMissing)
                       else Done
      ensures reply.Failed? ==> unchanged(this)
      ensures reply.Done? ==>
        State() == Retarget(old(State()), buttonIndex, buttonId,
                            if destPageIndex > 0 then Located(old(State()), destPageIndex) else None)
    {
      if !HasPermission(claim, SuperAdmin) {
        return Failed(Forbidden);
      }
      if buttonIndex !in buttonList {
        return Failed(ButtonMissing);
      }
      var dest: Option<int> := None;
      if destPageIndex > 0 {
        dest := FindPage(destPageIndex);
      }
      ButtonRetargetedSound(State(), buttonIndex, buttonId, dest, Next());
      SetButton(buttonIndex, buttonId, dest);
      reply := Done;
    }

    /** `button.ButtonID = buttonId; button.DestinationPage = dest`. */
    method SetButton(b: int, buttonId: int, dest: Option<int>)
      requires b in buttons
      modifies this`buttons
      ensures State() == Retarget(old(State()), b, buttonId, dest)
    {
      buttons := buttons[b := buttons[b].(buttonId := buttonId, destinationPage := dest)];
    }

    /** `OnPostCreateButtonDestPage`: gives a button without destination a new, bare destination page. */
    method CreateButtonDestPage(claim: Option<string>, buttonIndex: int, description: string, dialogType: int, say: string)
      returns (reply: Reply)
      requires Valid()
      modifies this`pages, this`pageList, this`buttons, this`nextPage
      ensures Valid()
      ensures reply == if !HasPermission(claim, SuperAdmin) then Failed(Forbidden)
                       else if buttonIndex !in old(buttonList) then Failed(ButtonMissing)
                       else if old(buttons[buttonIndex].destinationPage).Some? then Failed(DestinationExists)
                       else Created(old(nextPage))
      ensures reply.Failed? ==> unchanged(this)
      ensures reply.Created? ==>
        && nextPage == old(nextPage) + 1
        && State() == Retarget(WithNewPage(old(State()), old(nextPage), NewPage(description, dialogType, say)),
                               buttonIndex, old(buttons[buttonIndex].buttonId), Some(old(nextPage)))
    {
      if !HasPermission(claim, SuperAdmin) {
        return Failed(Forbidden);
      }
      if buttonIndex !in buttonList {
        return Failed(ButtonMissing);
      }
      if buttons[buttonIndex].destinationPage.Some? {
        return Failed(DestinationExists);
      }
      ghost var s, n := State(), Next();
      var pg := NewPage(description, dialogType, say);
      var id := InsertPage(pg);
      SetButton(buttonIndex, buttons[buttonIndex].buttonId, Some(id));
      DestPageCreatedSound(s, buttonIndex, pg, n, Next());
      reply := Created(id);
    }

    /** `OnPostUpdateGood`: replaces the item when `itemIndex > 0` (by a lookup that may find nothing) and sets the clamped rate. */
    method UpdateGood(claim: Option<string>, goodIndex: int, itemIndex: int, rate: real) returns (reply: Reply)
      requires Valid()
      modifies this`goods
      ensures Valid()
      ensures reply == if !HasPermission(claim, SuperAdmin) then Failed(Forbidden)
                       else if goodIndex !in old(goodList) then Failed(GoodMissing)
                       else Done
      ensures reply.Failed? ==> unchanged(this)
      ensures reply.Done? ==>
        State() == Reprice(old(State()), goodIndex,
                           if itemIndex > 0 then Lookup(itemList, itemIndex) else old(goods[goodIndex].item), rate)
    {
      if !HasPermission(claim, SuperAdmin) {
        return Failed(Forbidden);
      }
      if goodIndex !in goodList {
        return Failed(GoodMissing);
      }
      var item := goods[goodIndex].item;
      if itemIndex > 0 {
        item := Lookup(itemList, itemIndex);
      }
      GoodRepricedSound(State(), goodIndex, item, rate, Next());
      goods := goods[goodIndex := goods[goodIndex].(item := item, rate := ClampRate(rate))];
      reply := Done;
    }
  }
}
