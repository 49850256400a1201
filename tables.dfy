/**
  A database table is modelled as the sequence of its rows. This module holds
  the two queries both block modules are built from: the rows that satisfy a
  WHERE condition (Filter), and the first row a query returns (FirstMatch, the
  row `fetchOneRow` hands back), together with what keeping a primary key
  unique means for a table.
 */
module Tables {
  import opened Wrappers

  /** The rows of `s` that satisfy `p`, in table order. */
  function Filter<T>(s: seq<T>, p: T -> bool): (r: seq<T>)
    ensures |r| <= |s|
    ensures forall k :: 0 <= k < |r| ==> r[k] in s && p(r[k])
    ensures forall k :: 0 <= k < |s| && p(s[k]) ==> s[k] in r
  {
    if s == [] then []
    else
      assert s == [s[0]] + s[1..];
      if p(s[0]) then [s[0]] + Filter(s[1..], p) else Filter(s[1..], p)
  }

  /** The index of the first row of `s` that satisfies `p`, if any. */
  function FirstMatch<T>(s: seq<T>, p: T -> bool): (r: Option<nat>)
    ensures r.Some? ==> r.value < |s| && p(s[r.value])
    ensures r.Some? ==> forall j :: 0 <= j < r.value ==> !p(s[j])
    ensures r.None? ==> forall j :: 0 <= j < |s| ==> !p(s[j])
  {
    if s == [] then None
    else if p(s[0]) then Some(0)
    else match FirstMatch(s[1..], p)
      case None => None
      case Some(i) => Some(i + 1)
  }

  /** No two rows of `s` share a key: the key is the table's primary key. */
  predicate UniqueKeys<T>(s: seq<T>, key: T -> int)
  {
    forall i, j :: 0 <= i < j < |s| ==> key(s[i]) != key(s[j])
  }

  /** Every key in `s` is below `bound`: the next auto-increment value is fresh. */
  predicate KeysBelow<T>(s: seq<T>, key: T -> int, bound: int)
  {
    forall k :: 0 <= k < |s| ==> key(s[k]) < bound
  }

  /** A WHERE query returns each qualifying row as often as the table holds it, and no other row. */
  lemma {:induction false} FilterMultiset<T>(s: seq<T>, p: T -> bool)
    ensures forall x :: multiset(Filter(s, p))[x] == if p(x) then multiset(s)[x] else 0
  {
    if s != [] {
      FilterMultiset(s[1..], p);
      assert s == [s[0]] + s[1..];
      assert multiset(s) == multiset{s[0]} + multiset(s[1..]);
    }
  }

  /** Appending a row filters as the old rows followed by that row, if it qualifies. */
  lemma {:induction false} FilterAppend<T>(s: seq<T>, x: T, p: T -> bool)
    ensures Filter(s + [x], p) == Filter(s, p) + (if p(x) then [x] else [])
  {
    if s == [] {
      assert s + [x] == [x];
    } else {
      assert (s + [x])[0] == s[0];
      assert (s + [x])[1..] == s[1..] + [x];
      FilterAppend(s[1..], x, p);
    }
  }

  /** A WHERE condition no row satisfies selects nothing, and conversely. */
  lemma FilterEmpty<T>(s: seq<T>, p: T -> bool)
    ensures Filter(s, p) == [] <==> forall k :: 0 <= k < |s| ==> !p(s[k])
  {
    if Filter(s, p) != [] {
      assert Filter(s, p)[0] in Filter(s, p);
    }
  }

  /** When exactly row `i` satisfies `p`, the query returns that row alone. */
  lemma {:induction false} FilterSingle<T>(s: seq<T>, p: T -> bool, i: nat)
    requires i < |s| && p(s[i])
    requires forall k :: 0 <= k < |s| && k != i ==> !p(s[k])
    ensures Filter(s, p) == [s[i]]
  {
    if i == 0 {
      FilterEmpty(s[1..], p);
    } else {
      FilterSingle(s[1..], p, i - 1);
    }
  }

  /** If the query returns at most one row, no two distinct rows satisfy `p`. */
  lemma {:induction false} FilterAtMostOne<T>(s: seq<T>, p: T -> bool, i: nat, j: nat)
    requires i < |s| && j < |s| && p(s[i]) && p(s[j])
    requires |Filter(s, p)| <= 1
    ensures i == j
  {
    if i != 0 && j != 0 {
      FilterAtMostOne(s[1..], p, i - 1, j - 1);
    }
  }

  /**
    Two tables that agree, index by index, on which rows qualify and on the
    qualifying rows themselves return the same query result.
   */
  lemma {:induction false} FilterSame<T>(s: seq<T>, t: seq<T>, p: T -> bool)
    requires |s| == |t|
    requires forall k :: 0 <= k < |s| ==> p(s[k]) == p(t[k])
    requires forall k :: 0 <= k < |s| && p(s[k]) ==> s[k] == t[k]
    ensures Filter(s, p) == Filter(t, p)
  {
    if s != [] {
      FilterSame(s[1..], t[1..], p);
    }
  }

  /** The first row of a query is the first row of its filtered result. */
  lemma {:induction false} FirstMatchIsFirstFiltered<T>(s: seq<T>, p: T -> bool)
    ensures FirstMatch(s, p).None? <==> Filter(s, p) == []
    ensures FirstMatch(s, p).Some? ==> Filter(s, p) != [] && Filter(s, p)[0] == s[FirstMatch(s, p).value]
  {
    FilterEmpty(s, p);
    if s != [] && !p(s[0]) {
      FirstMatchIsFirstFiltered(s[1..], p);
    }
  }

  /** Filtering keeps a primary key unique. */
  lemma {:induction false} FilterKeepsUniqueKeys<T>(s: seq<T>, p: T -> bool, key: T -> int)
    requires UniqueKeys(s, key)
    ensures UniqueKeys(Filter(s, p), key)
  {
    if s != [] {
      var tail := s[1..];
      assert UniqueKeys(tail, key) by {
        forall i, j | 0 <= i < j < |tail| ensures key(tail[i]) != key(tail[j]) {
          assert tail[i] == s[i + 1] && tail[j] == s[j + 1];
        }
      }
      FilterKeepsUniqueKeys(tail, p, key);
      if p(s[0]) {
        var r := Filter(s, p);
        var rest := Filter(tail, p);
        assert r == [s[0]] + rest;
        forall i, j | 0 <= i < j < |r| ensures key(r[i]) != key(r[j]) {
          if i == 0 {
            assert r[j] == rest[j - 1];
            assert rest[j - 1] in tail;
            var m :| 0 <= m < |tail| && tail[m] == rest[j - 1];
            assert tail[m] == s[m + 1];
          } else {
            assert r[i] == rest[i - 1] && r[j] == rest[j - 1];
          }
        }
      }
    }
  }

  /** Running the same filter twice selects what running it once does. */
  lemma {:induction false} FilterIdempotent<T>(s: seq<T>, p: T -> bool)
    ensures Filter(Filter(s, p), p) == Filter(s, p)
  {
    if s != [] {
      FilterIdempotent(s[1..], p);
      if p(s[0]) {
        assert Filter(s, p) == [s[0]] + Filter(s[1..], p);
        assert (Filter(s, p))[1..] == Filter(s[1..], p);
      }
    }
  }

  /** Filtering by `q` first changes nothing for a condition `p` that implies `q`. */
  lemma {:induction false} FilterSubsumed<T>(s: seq<T>, q: T -> bool, p: T -> bool)
    requires forall k :: 0 <= k < |s| && p(s[k]) ==> q(s[k])
    ensures Filter(Filter(s, q), p) == Filter(s, p)
  {
    if s != [] {
      FilterSubsumed(s[1..], q, p);
      if q(s[0]) {
        assert Filter(s, q) == [s[0]] + Filter(s[1..], q);
        assert (Filter(s, q))[1..] == Filter(s[1..], q);
      }
    }
  }

  /** A value at two positions occurs at least twice in the multiset. */
  lemma TwoPositionsCountTwice<T>(s: seq<T>, i: nat, j: nat)
    requires i < j < |s| && s[i] == s[j]
    ensures multiset(s)[s[i]] >= 2
  {
    assert s == s[..j] + [s[j]] + s[j + 1..];
    assert s[i] in s[..j];
    assert multiset(s) == multiset(s[..j]) + multiset{s[j]} + multiset(s[j + 1..]);
  }

  /** A value occurring at least twice in the multiset stands at two positions. */
  lemma {:induction false} CountTwiceTwoPositions<T>(s: seq<T>, x: T) returns (i: nat, j: nat)
    requires multiset(s)[x] >= 2
    ensures i < j < |s| && s[i] == x && s[j] == x
  {
    assert s == [s[0]] + s[1..];
    assert multiset(s) == multiset{s[0]} + multiset(s[1..]);
    if s[0] == x {
      assert x in multiset(s[1..]);
      var m :| 0 <= m < |s[1..]| && s[1..][m] == x;
      i, j := 0, m + 1;
    } else {
      var i', j' := CountTwiceTwoPositions(s[1..], x);
      i, j := i' + 1, j' + 1;
    }
  }

  /** Tables that agree, index by index, on which rows qualify have the same first match. */
  lemma {:induction false} FirstMatchSameRows<T>(s: seq<T>, t: seq<T>, p: T -> bool)
    requires |s| == |t|
    requires forall k :: 0 <= k < |s| ==> p(s[k]) == p(t[k])
    ensures FirstMatch(s, p) == FirstMatch(t, p)
  {
    if s != [] {
      FirstMatchSameRows(s[1..], t[1..], p);
    }
  }

  /** A row appended to a table in which nothing qualifies is the first match. */
  lemma {:induction false} FirstMatchAppended<T>(s: seq<T>, x: T, p: T -> bool)
    requires forall k :: 0 <= k < |s| ==> !p(s[k])
    requires p(x)
    ensures FirstMatch(s + [x], p) == Some(|s|)
  {
    if s != [] {
      assert (s + [x])[1..] == s[1..] + [x];
      FirstMatchAppended(s[1..], x, p);
    }
  }

  /** Filtering by `q` first never adds rows that satisfy `p`. */
  lemma {:induction false} FilterNarrows<T>(s: seq<T>, q: T -> bool, p: T -> bool)
    ensures |Filter(Filter(s, q), p)| <= |Filter(s, p)|
  {
    if s != [] {
      FilterNarrows(s[1..], q, p);
      if q(s[0]) {
        assert Filter(s, q) == [s[0]] + Filter(s[1..], q);
        assert (Filter(s, q))[1..] == Filter(s[1..], q);
      }
    }
  }

  /** Tables that agree, index by index, on which rows qualify return equally many rows. */
  lemma {:induction false} FilterSameCount<T>(s: seq<T>, t: seq<T>, p: T -> bool)
    requires |s| == |t|
    requires forall k :: 0 <= k < |s| ==> p(s[k]) == p(t[k])
    ensures |Filter(s, p)| == |Filter(t, p)|
  {
    if s != [] {
      FilterSameCount(s[1..], t[1..], p);
    }
  }
}
