/** The list operations the dispatcher applies to its completion list:
    `std::find` (a linear scan), `std::list::remove` (delete every occurrence)
    and the consumption that `wait(ids)` performs, one id after another. */
module Lists {

  /** `std::find`: the position of the first occurrence of `x` in `s`,
      or `|s|` (the end iterator) when there is none. */
  method Find<T(==)>(s: seq<T>, x: T) returns (i: nat)
    ensures i <= |s|
    ensures i < |s| ==> s[i] == x
    ensures forall j :: 0 <= j < i ==> s[j] != x
    ensures i == |s| <==> x !in s
  {
    i := 0;
    while i < |s| && s[i] != x
      invariant i <= |s|
      invariant forall j :: 0 <= j < i ==> s[j] != x
    {
      i := i + 1;
    }
  }

  /** `std::list::remove`: `s` without any occurrence of `x`, the other
      elements keeping their order. */
  function RemoveAll<T(==)>(s: seq<T>, x: T): (r: seq<T>)
    ensures x !in r && |r| <= |s|
    ensures forall y :: y in r ==> y in s
  {
    if s == [] then []
    else (if s[0] == x then [] else [s[0]]) + RemoveAll(s[1..], x)
  }

  /** Removal deletes every occurrence of `x` and keeps the count of every other value. */
  lemma {:induction false} RemoveAllCount<T>(s: seq<T>, x: T)
    ensures multiset(RemoveAll(s, x)) == multiset(s)[x := 0]
    ensures forall y :: y in RemoveAll(s, x) <==> y in s && y != x
  {
    if s != [] {
      RemoveAllCount(s[1..], x);
      assert s == [s[0]] + s[1..];
      assert multiset(s) == multiset{s[0]} + multiset(s[1..]);
    }
    forall y ensures y in RemoveAll(s, x) <==> y in s && y != x {
      assert y in RemoveAll(s, x) <==> multiset(RemoveAll(s, x))[y] > 0;
      assert y in s <==> multiset(s)[y] > 0;
    }
  }

  /** Removal works element by element, so it distributes over concatenation:
      what survives of `a` stays in front of what survives of `b`. */
  lemma {:induction false} RemoveAllAppend<T>(a: seq<T>, b: seq<T>, x: T)
    ensures RemoveAll(a + b, x) == RemoveAll(a, x) + RemoveAll(b, x)
  {
    if a == [] {
      assert a + b == b;
    } else {
      assert (a + b)[1..] == a[1..] + b;
      RemoveAllAppend(a[1..], b, x);
    }
  }

  /** Removing a value that does not occur changes nothing. */
  lemma {:induction false} RemoveAllAbsent<T>(s: seq<T>, x: T)
    requires x !in s
    ensures RemoveAll(s, x) == s
  {
    if s != [] {
      RemoveAllAbsent(s[1..], x);
    }
  }

  /** `wait(ids)`: each id in turn is removed (all its occurrences) from `done`. */
  function ConsumeAll<T(==)>(done: seq<T>, ids: seq<T>): (r: seq<T>)
    ensures |r| <= |done|
    ensures forall y :: y in r ==> y in done && y !in ids
    decreases ids
  {
    if ids == [] then done
    else
      assert ids == [ids[0]] + ids[1..];
      ConsumeAll(RemoveAll(done, ids[0]), ids[1..])
  }

  /** `wait(ids)` returns only if, at the turn of each id, that id is still
      in the completion list (its spin loop never exits otherwise). */
  predicate WaitAllEnabled<T(==)>(done: seq<T>, ids: seq<T>)
    ensures WaitAllEnabled(done, ids) ==> forall i :: 0 <= i < |ids| ==> ids[i] in done
    decreases ids
  {
    ids == [] || (ids[0] in done && WaitAllEnabled(RemoveAll(done, ids[0]), ids[1..]))
  }

  predicate NoDuplicates<T(==)>(s: seq<T>)
  {
    forall i, j :: 0 <= i < j < |s| ==> s[i] != s[j]
  }

  /** In a sequence without duplicates, every value occurs at most once. */
  lemma {:induction false} NoDuplicatesCount<T>(s: seq<T>, x: T)
    requires NoDuplicates(s)
    ensures multiset(s)[x] <= 1
  {
    if s != [] {
      assert s == [s[0]] + s[1..];
      assert NoDuplicates(s[1..]) by {
        forall i, j | 0 <= i < j < |s[1..]| ensures s[1..][i] != s[1..][j] {
          assert s[1..][i] == s[i + 1] && s[1..][j] == s[j + 1];
        }
      }
      NoDuplicatesCount(s[1..], x);
      if s[0] == x {
        assert x !in s[1..] by {
          forall k | 0 <= k < |s[1..]| ensures s[1..][k] != x {
            assert s[1..][k] == s[k + 1];
          }
        }
      }
    }
  }

  /** After `wait(ids)`, a value remains exactly as often as before unless it was
      one of the ids, in which case none of it remains. */
  lemma {:induction false} ConsumeAllCount<T>(done: seq<T>, ids: seq<T>)
    ensures forall y :: multiset(ConsumeAll(done, ids))[y] == if y in ids then 0 else multiset(done)[y]
    ensures forall y :: y in ConsumeAll(done, ids) <==> y in done && y !in ids
    decreases ids
  {
    if ids != [] {
      RemoveAllCount(done, ids[0]);
      ConsumeAllCount(RemoveAll(done, ids[0]), ids[1..]);
      assert ids == [ids[0]] + ids[1..];
    }
    forall y ensures y in ConsumeAll(done, ids) <==> y in done && y !in ids {
      assert y in ConsumeAll(done, ids) <==> multiset(ConsumeAll(done, ids))[y] > 0;
      assert y in done <==> multiset(done)[y] > 0;
    }
  }

  /** `wait(ids)` returns exactly when every id is in the completion list and no
      id is listed twice: the second wait for the same id finds it consumed. */
  lemma {:induction false} WaitAllEnabledIff<T>(done: seq<T>, ids: seq<T>)
    ensures WaitAllEnabled(done, ids) <==>
            (forall i :: 0 <= i < |ids| ==> ids[i] in done) && NoDuplicates(ids)
    decreases ids
  {
    if ids != [] {
      var rest := RemoveAll(done, ids[0]);
      WaitAllEnabledIff(rest, ids[1..]);
      RemoveAllCount(done, ids[0]);
      if WaitAllEnabled(done, ids) {
        forall i | 0 <= i < |ids| ensures ids[i] in done {
          if i > 0 {
            assert ids[1..][i - 1] == ids[i];
          }
        }
        forall i, j | 0 <= i < j < |ids| ensures ids[i] != ids[j] {
          assert ids[1..][j - 1] == ids[j];
          if i > 0 {
            assert ids[1..][i - 1] == ids[i];
          }
        }
      }
      if (forall i :: 0 <= i < |ids| ==> ids[i] in done) && NoDuplicates(ids) {
        forall k | 0 <= k < |ids[1..]| ensures ids[1..][k] in rest {
          assert ids[1..][k] == ids[k + 1];
        }
        forall i, j | 0 <= i < j < |ids[1..]| ensures ids[1..][i] != ids[1..][j] {
          assert ids[1..][i] == ids[i + 1] && ids[1..][j] == ids[j + 1];
        }
      }
    }
  }
}
