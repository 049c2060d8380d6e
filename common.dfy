/** Values shared by the NPC and item admin models. */
module Common {

  /** A nullable reference: `None` stands for C#'s `null`. */
  datatype Option<+T> = None | Some(value: T)

  /** Why a handler refused a request; each one leaves the world unchanged. */
  datatype Failure =
    | Forbidden          // the caller's permission claim is below the required tier
    | NpcMissing         // no NPC with that index in the NPC list
    | PageMissing        // FindPage found no page with that index
    | CheckMissing
    | ActionMissing
    | ButtonMissing
    | GoodMissing
    | ItemMissing
    | EntryPageExists    // the NPC already has an entry page
    | NoEntryPage        // the NPC has no entry page to delete
    | DestinationExists  // the button already has a destination page
    | NameEmpty          // a required name is null or white space

  /** The outcome of a handler: success, success with the index of a new record, or a refusal. */
  datatype Reply = Done | Created(index: int) | Failed(why: Failure)

  /** `List<T>.IndexOf`: the position of the first occurrence of `x`. */
  function IndexOf(s: seq<int>, x: int): (k: nat)
    requires x in s
    ensures k < |s| && s[k] == x && x !in s[..k]
  {
    if s[0] == x then 0
    else
      var k := IndexOf(s[1..], x);
      assert s[..k + 1] == [s[0]] + s[1..][..k];
      k + 1
  }

  /** `List<T>.RemoveAt`: `s` without the element at position `k`, the rest in order. */
  function RemoveAt(s: seq<int>, k: int): (r: seq<int>)
    requires 0 <= k < |s|
    ensures |r| == |s| - 1
    ensures forall i | 0 <= i < k :: r[i] == s[i]
    ensures forall i | k <= i < |r| :: r[i] == s[i + 1]
    ensures multiset(r) == multiset(s) - multiset{s[k]}
  {
    assert s == s[..k] + [s[k]] + s[k + 1..];
    s[..k] + s[k + 1..]
  }

  /** `List<T>.Remove`: drops the first occurrence of `x`, if there is one. */
  function RemoveFirst(s: seq<int>, x: int): (r: seq<int>)
    ensures x !in s ==> r == s
    ensures x in s ==> |r| == |s| - 1
    ensures forall y :: y in r ==> y in s
    ensures forall y :: y in s && y != x ==> y in r
  {
    if s == [] then []
    else if s[0] == x then s[1..]
    else [s[0]] + RemoveFirst(s[1..], x)
  }

  /**
   * `RemoveFirst` is `List<T>.Remove` as .NET defines it, `RemoveAt(IndexOf(x))`: the copy of
   * `x` that leaves the list is the first one, and every other element keeps its place in order.
   */
  lemma {:induction false} RemoveFirstRemovesFirst(s: seq<int>, x: int)
    requires x in s
    ensures RemoveFirst(s, x) == RemoveAt(s, IndexOf(s, x))
  {
    if s[0] != x {
      RemoveFirstRemovesFirst(s[1..], x);
      var k := IndexOf(s[1..], x);
      assert IndexOf(s, x) == k + 1;
      RemoveAtTail(s, k);
    }
  }

  lemma RemoveAtTail(s: seq<int>, k: int)
    requires 0 <= k < |s| - 1
    ensures [s[0]] + RemoveAt(s[1..], k) == RemoveAt(s, k + 1)
  {
  }

  /** `RemoveFirst` takes exactly one copy of `x` out of the list and no other element. */
  lemma RemoveFirstMultiset(s: seq<int>, x: int)
    ensures multiset(RemoveFirst(s, x)) == multiset(s) - multiset{x}
  {
    if x in s {
      RemoveFirstRemovesFirst(s, x);
    } else {
      assert multiset(s)[x] == 0;
    }
  }

  /** No element occurs twice. */
  predicate Distinct(s: seq<int>)
  {
    forall i, j :: 0 <= i < j < |s| ==> s[i] != s[j]
  }

  /** In a list without repetitions, removing the first `x` removes every `x` and keeps the rest in order. */
  lemma {:induction false} RemoveFirstDistinct(s: seq<int>, x: int)
    requires Distinct(s)
    ensures Distinct(RemoveFirst(s, x))
    ensures x !in RemoveFirst(s, x)
    ensures RemoveFirst(s, x) == Without(s, x)
  {
    if s == [] {
    } else if s[0] == x {
      assert x !in s[1..];
      WithoutAbsent(s[1..], x);
    } else {
      RemoveFirstDistinct(s[1..], x);
      var r := RemoveFirst(s[1..], x);
      assert s[0] !in r;
      assert RemoveFirst(s, x) == [s[0]] + r;
      forall i, j | 0 <= i < j < |[s[0]] + r| ensures ([s[0]] + r)[i] != ([s[0]] + r)[j] {
        if i > 0 {
          assert ([s[0]] + r)[i] == r[i - 1] && ([s[0]] + r)[j] == r[j - 1];
        } else {
          assert ([s[0]] + r)[j] in r;
        }
      }
    }
  }

  lemma {:induction false} WithoutAbsent(s: seq<int>, x: int)
    requires x !in s
    ensures Without(s, x) == s
  {
    if s != [] {
      WithoutAbsent(s[1..], x);
    }
  }

  /** Every element of `s` except the ones equal to `x`, in order. */
  function Without(s: seq<int>, x: int): (r: seq<int>)
    ensures forall y :: y in r <==> y in s && y != x
  {
    if s == [] then []
    else if s[0] == x then Without(s[1..], x)
    else [s[0]] + Without(s[1..], x)
  }

  /** In a list without repetitions, an element does not occur before its own position. */
  lemma DistinctAt(s: seq<int>, i: int)
    requires Distinct(s) && 0 <= i < |s|
    ensures s[i] !in s[..i]
  {
  }

  /** Joining two lists without repetitions and without common elements gives a list without repetitions. */
  lemma DistinctAppend(a: seq<int>, b: seq<int>)
    requires Distinct(a) && Distinct(b) && forall x :: x in a ==> x !in b
    ensures Distinct(a + b)
  {
    forall i, j | 0 <= i < j < |a + b| ensures (a + b)[i] != (a + b)[j] {
      if j >= |a| && i < |a| {
        assert (a + b)[i] in a && (a + b)[j] in b;
      }
    }
  }
}
