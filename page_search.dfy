/**
 * The order in which `FindPageInHierarchy` visits the dialogue graph, stated as a reference
 * function on the world: a page, then its success page, then the fail page of each check in
 * list order, then the destination of each button in list order, each explored to the end
 * before the next one starts, and the whole search stops at the first hit. The lemmas below
 * say what such a search guarantees.
 */
module PageSearch {
  import opened Common
  import opened DialogGraph

  /** What a search returns (the page found) and leaves behind (the visited set), and the pages it examined, in order. */
  datatype Search = Search(found: Option<int>, visited: set<int>, trace: seq<int>)

  /** Running the search `second` after the search `first` found nothing. */
  function Then(first: Search, second: Search): (r: Search)
    ensures r.found == second.found && r.visited == second.visited
    ensures |r.trace| == |first.trace| + |second.trace|
    ensures r.trace[..|first.trace|] == first.trace && r.trace[|first.trace|..] == second.trace
  {
    Search(second.found, second.visited, first.trace + second.trace)
  }

  /** The fail pages of the checks `cs`, in list order. */
  function FailPages(S: Store, cs: seq<int>): (r: seq<Option<int>>)
    ensures |r| == |cs| && forall j | 0 <= j < |cs| :: r[j] == FailOf(S, cs[j])
  {
    if cs == [] then [] else FailPages(S, cs[..|cs| - 1]) + [FailOf(S, cs[|cs| - 1])]
  }

  /** The destinations of the buttons `bs`, in list order. */
  function DestPages(S: Store, bs: seq<int>): (r: seq<Option<int>>)
    ensures |r| == |bs| && forall j | 0 <= j < |bs| :: r[j] == DestOf(S, bs[j])
  {
    if bs == [] then [] else DestPages(S, bs[..|bs| - 1]) + [DestOf(S, bs[|bs| - 1])]
  }

  /** The pages a search goes on to from `p`, in the order it tries them. */
  function Children(S: Store, p: int): (r: seq<Option<int>>)
    requires p in S.pages
    ensures |r| == 1 + |S.pages[p].checks| + |S.pages[p].buttons|
  {
    [S.pages[p].successPage] + FailPages(S, S.pages[p].checks) + DestPages(S, S.pages[p].buttons)
  }

  /**
   * The depth-first search from `page` for `target` that skips the pages in `V`: a null or
   * already visited page ends the search at once; otherwise the page is marked visited and
   * is the answer if it is the target, else its children are searched in order.
   */
  ghost function SearchFrom(S: Store, page: Option<int>, target: int, V: set<int>): (r: Search)
    ensures V <= r.visited
    ensures r.found.Some? ==> r.found.value == target && target in r.visited - V
    decreases S.pages.Keys - V, 0, 0
  {
    if page.None? || page.value in V || page.value !in S.pages then Search(None, V, [])
    else
      var p := page.value;
      if p == target then Search(Some(p), V + {p}, [p])
      else
        var r := SearchAll(S, Children(S, p), target, V + {p});
        Search(r.found, r.visited, [p] + r.trace)
  }

  /** The searches from the pages `ch`, one after the other, each skipping what the earlier ones visited, up to the first hit. */
  ghost function SearchAll(S: Store, ch: seq<Option<int>>, target: int, V: set<int>): (r: Search)
    ensures V <= r.visited
    ensures r.found.Some? ==> r.found.value == target && target in r.visited - V
    decreases S.pages.Keys - V, 1, |ch|
  {
    if ch == [] then Search(None, V, [])
    else
      var r := SearchFrom(S, ch[0], target, V);
      if r.found.Some? then r else Then(r, SearchAll(S, ch[1..], target, r.visited))
  }

  /** The search over `b` that follows the searches that gave `r`, unless they found the target. */
  ghost function Continue(S: Store, r: Search, b: seq<Option<int>>, target: int): Search
  {
    if r.found.Some? then r else Then(r, SearchAll(S, b, target, r.visited))
  }

  // ----- the order of the search -----

  /** Searching `a + b` is searching `a` and, if that found nothing, going on with `b`. */
  lemma {:induction false} SearchAllAppend(S: Store, a: seq<Option<int>>, b: seq<Option<int>>, target: int, V: set<int>)
    ensures SearchAll(S, a + b, target, V) == Continue(S, SearchAll(S, a, target, V), b, target)
    decreases |a|
  {
    if a == [] {
      assert a + b == b;
    } else {
      var ab := a + b;
      assert ab[0] == a[0] && ab[1..] == a[1..] + b;
      var r := SearchFrom(S, a[0], target, V);
      assert SearchAll(S, a, target, V) == if r.found.Some? then r else Then(r, SearchAll(S, a[1..], target, r.visited));
      assert SearchAll(S, ab, target, V) == if r.found.Some? then r else Then(r, SearchAll(S, a[1..] + b, target, r.visited));
      if r.found.None? {
        SearchAllAppend(S, a[1..], b, target, r.visited);
        var q := SearchAll(S, a[1..], target, r.visited);
        if q.found.None? {
          ThenAssoc(r, q, SearchAll(S, b, target, q.visited));
        }
      }
    }
  }

  lemma ThenAssoc(x: Search, y: Search, z: Search)
    ensures Then(x, Then(y, z)) == Then(Then(x, y), z)
  {
    assert x.trace + (y.trace + z.trace) == (x.trace + y.trace) + z.trace;
  }

  /** A search from one page is the search over the one-page list. */
  lemma SearchAllSingle(S: Store, ch: seq<Option<int>>, target: int, V: set<int>)
    requires |ch| == 1
    ensures SearchAll(S, ch, target, V) == SearchFrom(S, ch[0], target, V)
  {
    var x := SearchFrom(S, ch[0], target, V);
    assert ch[1..] == [];
    assert x.trace + [] == x.trace;
  }

  /** Searching one page more: the prefix `ch[..i]` found nothing, so the next page's search follows it. */
  lemma SearchAllStep(S: Store, ch: seq<Option<int>>, i: int, target: int, V: set<int>)
    requires 0 <= i < |ch| && SearchAll(S, ch[..i], target, V).found.None?
    ensures var r := SearchAll(S, ch[..i], target, V);
            SearchAll(S, ch[..i + 1], target, V) == Then(r, SearchFrom(S, ch[i], target, r.visited))
  {
    assert ch[..i + 1] == ch[..i] + [ch[i]];
    SearchAllAppend(S, ch[..i], [ch[i]], target, V);
    var r := SearchAll(S, ch[..i], target, V);
    SearchAllSingle(S, [ch[i]], target, r.visited);
  }

  /** Once the prefix `ch[..i]` has found the target, the rest of `ch` is not searched. */
  lemma SearchAllStops(S: Store, ch: seq<Option<int>>, i: int, target: int, V: set<int>)
    requires 0 <= i <= |ch| && SearchAll(S, ch[..i], target, V).found.Some?
    ensures SearchAll(S, ch, target, V) == SearchAll(S, ch[..i], target, V)
  {
    assert ch == ch[..i] + ch[i..];
    SearchAllAppend(S, ch[..i], ch[i..], target, V);
  }

  /**
   * The search from a page `p` that is neither visited nor the target, in three stages: its
   * success page, then the fail pages of its checks, then the destinations of its buttons;
   * the first stage that finds the target ends it, and the trace is `p` followed by the
   * traces of the stages that ran, in that order.
   */
  lemma SearchFromSteps(S: Store, p: int, target: int, V: set<int>)
    requires p in S.pages && p !in V && p != target
    ensures var r0 := SearchFrom(S, S.pages[p].successPage, target, V + {p});
            var r1 := SearchAll(S, FailPages(S, S.pages[p].checks), target, r0.visited);
            var r2 := SearchAll(S, DestPages(S, S.pages[p].buttons), target, r1.visited);
            SearchFrom(S, Some(p), target, V)
            == if r0.found.Some? then Search(r0.found, r0.visited, [p] + r0.trace)
               else if r1.found.Some? then Search(r1.found, r1.visited, [p] + r0.trace + r1.trace)
               else Search(r2.found, r2.visited, [p] + r0.trace + r1.trace + r2.trace)
  {
    var r0 := SearchFrom(S, S.pages[p].successPage, target, V + {p});
    var F := FailPages(S, S.pages[p].checks);
    var D := DestPages(S, S.pages[p].buttons);
    SearchFromChildren(S, p, target, V);
    ChildrenSearch(S, p, target, V + {p});
    if r0.found.None? {
      var r1 := SearchAll(S, F, target, r0.visited);
      if r1.found.None? {
        var r2 := SearchAll(S, D, target, r1.visited);
        TracesJoin(p, r0.trace, r1.trace, r2.trace);
      } else {
        TracesJoin(p, r0.trace, r1.trace, []);
      }
    }
  }

  lemma TracesJoin(p: int, a: seq<int>, b: seq<int>, c: seq<int>)
    ensures [p] + ((a + b) + c) == [p] + a + b + c
    ensures [p] + (a + b) == [p] + a + b
  {
  }

  /** Searching the children of `p` is searching its success page, then its fail pages, then its destinations. */
  lemma ChildrenSearch(S: Store, p: int, target: int, V: set<int>)
    requires p in S.pages
    ensures var F := FailPages(S, S.pages[p].checks);
            var D := DestPages(S, S.pages[p].buttons);
            SearchAll(S, Children(S, p), target, V)
            == Continue(S, Continue(S, SearchFrom(S, S.pages[p].successPage, target, V), F, target), D, target)
  {
    var s := [S.pages[p].successPage];
    var F := FailPages(S, S.pages[p].checks);
    var D := DestPages(S, S.pages[p].buttons);
    assert Children(S, p) == (s + F) + D;
    SearchAllAppend(S, s + F, D, target, V);
    SearchAllAppend(S, s, F, target, V);
    SearchAllSingle(S, s, target, V);
  }

  /** The search from a page that is neither visited nor the target goes on to its children. */
  lemma SearchFromChildren(S: Store, p: int, target: int, V: set<int>)
    requires p in S.pages && p !in V && p != target
    ensures SearchFrom(S, Some(p), target, V)
            == Then(Search(None, V, [p]), SearchAll(S, Children(S, p), target, V + {p}))
  {
  }

  // ----- what the search guarantees -----

  lemma ClosedGrow(S: Store, D1: set<int>, V1: set<int>, D2: set<int>, V2: set<int>)
    requires Closed(S, D1, V1) && Closed(S, D2, V2) && V1 <= V2
    ensures Closed(S, D1 + D2, V2)
  {
  }

  /** Every page listed in `ch` exists and is the end of an edge from `p`. */
  ghost predicate EdgesFrom(S: Store, p: int, ch: seq<Option<int>>)
  {
    forall i :: 0 <= i < |ch| ==> OptIn(ch[i], S.pages.Keys) && (ch[i].Some? ==> Edge(S, p, ch[i].value))
  }

  /** The children of `p` exist and are ends of edges out of `p`. */
  lemma ChildrenAreEdges(S: Store, p: int)
    requires Valid(S) && p in S.pages
    ensures EdgesFrom(S, p, Children(S, p))
  {
    var pg := S.pages[p];
    var F := FailPages(S, pg.checks);
    var D := DestPages(S, pg.buttons);
    var ch := Children(S, p);
    assert ch == [pg.successPage] + F + D;
    forall i | 0 <= i < |ch| ensures OptIn(ch[i], S.pages.Keys) && (ch[i].Some? ==> Edge(S, p, ch[i].value)) {
      if i == 0 {
        assert ch[i] == pg.successPage;
      } else if i < 1 + |F| {
        var j := i - 1;
        assert ch[i] == F[j] == FailOf(S, pg.checks[j]);
      } else {
        var j := i - 1 - |F|;
        assert ch[i] == D[j] == DestOf(S, pg.buttons[j]);
      }
    }
  }

  /** Every edge out of `p` ends at one of its children. */
  lemma EdgesAreChildren(S: Store, p: int, r: int)
    requires p in S.pages && Edge(S, p, r)
    ensures Some(r) in Children(S, p)
  {
    var pg := S.pages[p];
    var F := FailPages(S, pg.checks);
    var D := DestPages(S, pg.buttons);
    var ch := Children(S, p);
    assert ch == [pg.successPage] + F + D;
    if pg.successPage == Some(r) {
      assert ch[0] == Some(r);
    } else if exists j :: 0 <= j < |pg.checks| && FailOf(S, pg.checks[j]) == Some(r) {
      var j :| 0 <= j < |pg.checks| && FailOf(S, pg.checks[j]) == Some(r);
      assert ch[1 + j] == F[j];
    } else {
      var j :| 0 <= j < |pg.buttons| && DestOf(S, pg.buttons[j]) == Some(r);
      assert ch[1 + |F| + j] == D[j];
    }
  }

  /** A page whose children all lie in `W` has every edge out of it ending in `W`. */
  lemma ChildrenInClosed(S: Store, p: int, W: set<int>)
    requires Valid(S) && p in S.pages
    requires forall i :: 0 <= i < |Children(S, p)| ==> OptIn(Children(S, p)[i], W)
    ensures Closed(S, {p}, W)
  {
    var ch := Children(S, p);
    forall r | Edge(S, p, r) ensures r in W {
      EdgesAreChildren(S, p, r);
      var i :| 0 <= i < |ch| && ch[i] == Some(r);
    }
  }

  /**
   * A search from `V` visits each page at most once (the trace has no repetition and lists
   * exactly the newly visited pages), and on a miss the newly visited pages have all their
   * edges inside the visited set and do not include the target.
   */
  ghost predicate Sound(S: Store, target: int, V: set<int>, r: Search)
  {
    && V <= r.visited <= S.pages.Keys
    && Distinct(r.trace) && Elems(r.trace) == r.visited - V
    && (r.found.None? ==> Closed(S, r.visited - V, r.visited) && target !in r.visited - V)
  }

  /** A sound search that missed, followed by a sound search from where it stopped, is sound. */
  lemma ThenSound(S: Store, target: int, V: set<int>, r0: Search, r1: Search)
    requires Sound(S, target, V, r0) && r0.found.None? && Sound(S, target, r0.visited, r1)
    ensures Sound(S, target, V, Then(r0, r1))
  {
    forall x | x in r0.trace ensures x !in r1.trace {
      assert x in Elems(r0.trace);
      assert x !in Elems(r1.trace);
    }
    DistinctAppend(r0.trace, r1.trace);
    assert Elems(r0.trace + r1.trace) == Elems(r0.trace) + Elems(r1.trace);
    assert r1.visited - V == (r0.visited - V) + (r1.visited - r0.visited);
    if r1.found.None? {
      ClosedGrow(S, r0.visited - V, r0.visited, r1.visited - r0.visited, r1.visited);
    }
  }

  /**
   * The search from `page` is sound; a null or visited page changes nothing; otherwise the
   * page ends up visited and every page the search newly visited is reachable from it.
   */
  lemma {:induction false} SearchFromSound(S: Store, page: Option<int>, target: int, V: set<int>)
    requires Valid(S) && OptIn(page, S.pages.Keys) && V <= S.pages.Keys
    ensures Sound(S, target, V, SearchFrom(S, page, target, V))
    ensures page.None? || page.value in V ==> SearchFrom(S, page, target, V) == Search(None, V, [])
    ensures page.Some? ==> var r := SearchFrom(S, page, target, V);
                           page.value in r.visited && forall q :: q in r.visited - V ==> Reaches(S, page.value, q)
    decreases S.pages.Keys - V, 0, 0
  {
    var r := SearchFrom(S, page, target, V);
    if page.None? || page.value in V {
      assert Elems([]) == {};
    } else {
      var p := page.value;
      ReachesItself(S, p);
      if p == target {
        assert Elems([p]) == {p};
      } else {
        SearchFromChildren(S, p, target, V);
        ChildrenAreEdges(S, p);
        SearchAllSound(S, p, Children(S, p), target, V + {p});
        PageSearchSound(S, p, target, V, SearchAll(S, Children(S, p), target, V + {p}));
      }
    }
  }

  /** The search from a new page `p` that is not the target is sound when the search of its children is. */
  lemma PageSearchSound(S: Store, p: int, target: int, V: set<int>, rr: Search)
    requires Valid(S) && p in S.pages && p !in V && p != target
    requires Sound(S, target, V + {p}, rr)
    requires rr.found.None? ==> forall i :: 0 <= i < |Children(S, p)| ==> OptIn(Children(S, p)[i], rr.visited)
    ensures Sound(S, target, V, Search(rr.found, rr.visited, [p] + rr.trace))
  {
    var V1 := V + {p};
    assert p !in rr.trace by {
      assert p !in Elems(rr.trace);
    }
    DistinctAppend([p], rr.trace);
    assert Elems([p] + rr.trace) == {p} + Elems(rr.trace);
    assert rr.visited - V == {p} + (rr.visited - V1);
    if rr.found.None? {
      ChildrenInClosed(S, p, rr.visited);
      ClosedGrow(S, rr.visited - V1, rr.visited, {p}, rr.visited);
    }
  }

  /**
   * The searches from the pages `ch`, all ends of edges from `p`, are sound together; every
   * page they newly visit is reachable from `p`, and on a miss every page of `ch` is visited.
   */
  lemma {:induction false} SearchAllSound(S: Store, p: int, ch: seq<Option<int>>, target: int, V: set<int>)
    requires Valid(S) && V <= S.pages.Keys && EdgesFrom(S, p, ch)
    ensures Sound(S, target, V, SearchAll(S, ch, target, V))
    ensures var r := SearchAll(S, ch, target, V);
            && (forall q :: q in r.visited - V ==> Reaches(S, p, q))
            && (r.found.None? ==> forall i :: 0 <= i < |ch| ==> OptIn(ch[i], r.visited))
    decreases S.pages.Keys - V, 1, |ch|
  {
    var r := SearchAll(S, ch, target, V);
    if ch == [] {
      assert Elems([]) == {};
    } else {
      var r0 := SearchFrom(S, ch[0], target, V);
      SearchFromSound(S, ch[0], target, V);
      forall q | q in r0.visited - V ensures Reaches(S, p, q) {
        ReachesThroughEdge(S, p, ch[0].value, q);
      }
      if r0.found.None? {
        var r1 := SearchAll(S, ch[1..], target, r0.visited);
        assert EdgesFrom(S, p, ch[1..]) by {
          forall i | 0 <= i < |ch[1..]| ensures OptIn(ch[1..][i], S.pages.Keys) && (ch[1..][i].Some? ==> Edge(S, p, ch[1..][i].value)) {
            assert ch[1..][i] == ch[i + 1];
          }
        }
        SearchAllSound(S, p, ch[1..], target, r0.visited);
        assert r == Then(r0, r1);
        ThenSound(S, target, V, r0, r1);
        if r.found.None? {
          forall i | 0 <= i < |ch| ensures OptIn(ch[i], r.visited) {
            if i > 0 {
              assert ch[i] == ch[1..][i - 1];
            }
          }
        }
      }
    }
  }
}
