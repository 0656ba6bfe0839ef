/**
 * `filteredItems`: the items whose lower-cased projection contains the
 * lower-cased search text, in their original order.
 */
module Filtering {
  import opened Text

  /** The filter's test for one item. */
  predicate Matches<T>(item: T, itemToString: T -> string, search: string): (r: bool)
    ensures r <==> exists i: nat :: OccursAt(Lower(itemToString(item)), Lower(search), i)
  {
    ContainsIff(Lower(itemToString(item)), Lower(search));
    Contains(Lower(itemToString(item)), Lower(search))
  }

  function Filter<T>(items: seq<T>, itemToString: T -> string, search: string): (r: seq<T>)
    ensures |r| <= |items|
    ensures forall x :: x in r ==> x in items && Matches(x, itemToString, search)
  {
    if items == [] then []
    else
      var rest := Filter(items[1..], itemToString, search);
      if Matches(items[0], itemToString, search) then [items[0]] + rest else rest
  }

  /** `a` is obtained from `b` by deleting elements, keeping the order of the rest. */
  ghost predicate IsSubsequence<T>(a: seq<T>, b: seq<T>)
    decreases |b|
  {
    if a == [] then true
    else if b == [] then false
    else (a[0] == b[0] && IsSubsequence(a[1..], b[1..])) || IsSubsequence(a, b[1..])
  }

  /** Every item that passes the test is kept: the converse of Filter's ensures. */
  lemma {:induction false} FilterKeepsMatches<T>(items: seq<T>, itemToString: T -> string, search: string, x: T)
    ensures x in Filter(items, itemToString, search) <==> x in items && Matches(x, itemToString, search)
  {
    if items != [] && x != items[0] {
      FilterKeepsMatches(items[1..], itemToString, search, x);
    }
  }

  /** Matching items keep their multiplicity, all others vanish. */
  lemma {:induction false} FilterCount<T>(items: seq<T>, itemToString: T -> string, search: string, x: T)
    ensures multiset(Filter(items, itemToString, search))[x]
         == if Matches(x, itemToString, search) then multiset(items)[x] else 0
  {
    if items != [] {
      var y, rest := items[0], items[1..];
      FilterCount(rest, itemToString, search, x);
      assert items == [y] + rest;
      assert multiset(items) == multiset([y]) + multiset(rest);
      var r, r' := Filter(items, itemToString, search), Filter(rest, itemToString, search);
      if Matches(y, itemToString, search) {
        assert r == [y] + r';
        assert multiset(r) == multiset([y]) + multiset(r');
      } else {
        assert r == r';
      }
    }
  }

  /** The filter only deletes items; the survivors stay in their relative order. */
  lemma {:induction false} FilterIsSubsequence<T>(items: seq<T>, itemToString: T -> string, search: string)
    ensures IsSubsequence(Filter(items, itemToString, search), items)
  {
    if items != [] {
      FilterIsSubsequence(items[1..], itemToString, search);
      var r := Filter(items, itemToString, search);
      if Matches(items[0], itemToString, search) {
        assert r[0] == items[0] && r[1..] == Filter(items[1..], itemToString, search);
      }
    }
  }

  lemma {:induction false} SubsequenceCount<T>(a: seq<T>, b: seq<T>, x: T)
    requires IsSubsequence(a, b)
    ensures multiset(a)[x] <= multiset(b)[x]
    decreases |b|
  {
    if a != [] {
      assert b == [b[0]] + b[1..];
      if a[0] == b[0] && IsSubsequence(a[1..], b[1..]) {
        SubsequenceCount(a[1..], b[1..], x);
        assert a == [a[0]] + a[1..];
      } else {
        SubsequenceCount(a, b[1..], x);
      }
    }
  }

  /**
   * The filter's result is the only subsequence of `items` in which every
   * matching value occurs as often as in `items` and no other value occurs:
   * "exactly the matching items, in original order" determines it.
   */
  lemma {:induction false} FilterUnique<T>(items: seq<T>, itemToString: T -> string, search: string, r: seq<T>)
    requires IsSubsequence(r, items)
    requires forall x :: multiset(r)[x] == if Matches(x, itemToString, search) then multiset(items)[x] else 0
    ensures r == Filter(items, itemToString, search)
    decreases |items|
  {
    if items == [] {
    } else {
      var y, rest := items[0], items[1..];
      assert items == [y] + rest;
      if Matches(y, itemToString, search) {
        assert multiset(r)[y] == multiset(items)[y] > 0;
        assert r != [];
        if r[0] == y && IsSubsequence(r[1..], rest) {
          assert r == [y] + r[1..];
          forall x ensures multiset(r[1..])[x] == if Matches(x, itemToString, search) then multiset(rest)[x] else 0 {
            assert multiset(r)[x] == multiset(r[1..])[x] + (if x == y then 1 else 0);
          }
          FilterUnique(rest, itemToString, search, r[1..]);
        } else {
          assert IsSubsequence(r, rest);
          SubsequenceCount(r, rest, y);
          assert false;
        }
      } else {
        assert y !in r by {
          assert multiset(r)[y] == 0;
        }
        assert IsSubsequence(r, rest) by {
          if r != [] {
            assert r[0] != y;
          }
        }
        forall x ensures multiset(r)[x] == if Matches(x, itemToString, search) then multiset(rest)[x] else 0 {
          if x != y {
            assert multiset(items)[x] == multiset(rest)[x];
          }
        }
        FilterUnique(rest, itemToString, search, r);
      }
    }
  }

  /** An empty search keeps every item (`"".includes` is always true). */
  lemma {:induction false} FilterEmptySearch<T>(items: seq<T>, itemToString: T -> string)
    ensures Filter(items, itemToString, "") == items
  {
    if items != [] {
      EmptyIsContained(Lower(itemToString(items[0])));
      FilterEmptySearch(items[1..], itemToString);
    }
  }

  /** The search text's own case does not matter. */
  lemma {:induction false} FilterIgnoresSearchCase<T>(items: seq<T>, itemToString: T -> string, search: string)
    ensures Filter(items, itemToString, Lower(search)) == Filter(items, itemToString, search)
  {
    LowerIdempotent(search);
    if items != [] {
      FilterIgnoresSearchCase(items[1..], itemToString, search);
    }
  }

  /** Filtering an already filtered list with the same search changes nothing. */
  lemma {:induction false} FilterIdempotent<T>(items: seq<T>, itemToString: T -> string, search: string)
    ensures Filter(Filter(items, itemToString, search), itemToString, search) == Filter(items, itemToString, search)
  {
    if items != [] {
      FilterIdempotent(items[1..], itemToString, search);
    }
  }

  /** Typing more characters narrows the list: the longer search keeps a subsequence. */
  lemma {:induction false} FilterNarrows<T>(items: seq<T>, itemToString: T -> string, search: string, more: string)
    ensures IsSubsequence(Filter(items, itemToString, search + more), Filter(items, itemToString, search))
  {
    if items != [] {
      FilterNarrows(items[1..], itemToString, search, more);
      var longer, shorter := Filter(items, itemToString, search + more), Filter(items, itemToString, search);
      var longerRest, shorterRest := Filter(items[1..], itemToString, search + more), Filter(items[1..], itemToString, search);
      if Matches(items[0], itemToString, search + more) {
        LowerConcat(search, more);
        ContainsPrefixOfNeedle(Lower(itemToString(items[0])), Lower(search), Lower(more));
        assert longer[0] == shorter[0] && longer[1..] == longerRest && shorter[1..] == shorterRest;
      } else if Matches(items[0], itemToString, search) {
        assert longer == longerRest && shorter[1..] == shorterRest;
        SubsequenceDropHead(longer, shorter);
      }
    }
  }

  lemma {:induction false} SubsequenceDropHead<T>(a: seq<T>, b: seq<T>)
    requires b != [] && IsSubsequence(a, b[1..])
    ensures IsSubsequence(a, b)
  {
  }

  /** Filtering distributes over concatenation of item lists. */
  lemma {:induction false} FilterConcat<T>(a: seq<T>, b: seq<T>, itemToString: T -> string, search: string)
    ensures Filter(a + b, itemToString, search) == Filter(a, itemToString, search) + Filter(b, itemToString, search)
  {
    if a == [] {
      assert a + b == b;
    } else {
      assert (a + b)[1..] == a[1..] + b;
      FilterConcat(a[1..], b, itemToString, search);
    }
  }

  /** A list in which exactly one item, at index `k`, passes the test filters down to that one item. */
  lemma {:induction false} FilterSingleMatch<T>(items: seq<T>, itemToString: T -> string, search: string, k: nat)
    requires k < |items| && Matches(items[k], itemToString, search)
    requires forall j :: 0 <= j < |items| && j != k ==> !Matches(items[j], itemToString, search)
    ensures Filter(items, itemToString, search) == [items[k]]
  {
    if k == 0 {
      FilterNoMatch(items[1..], itemToString, search);
    } else {
      FilterSingleMatch(items[1..], itemToString, search, k - 1);
    }
  }

  /** A list in which no item passes the test filters down to nothing. */
  lemma {:induction false} FilterNoMatch<T>(items: seq<T>, itemToString: T -> string, search: string)
    requires forall j :: 0 <= j < |items| ==> !Matches(items[j], itemToString, search)
    ensures Filter(items, itemToString, search) == []
  {
    if items != [] {
      FilterNoMatch(items[1..], itemToString, search);
    }
  }
}
