/** A value that may be absent: JavaScript's `undefined`/`null` versus a present value. */
module Optional {

  datatype Option<+T> = None | Some(value: T) {

    /** The present value, or `default` when absent (JavaScript's `x ?? default`). */
    function GetOr(default: T): T {
      match this
      case Some(v) => v
      case None => default
    }
  }
}

/** The one way the editors and renderers change the host grid's row data:
    `node.setDataValue(field, value)`, returned as a value instead of performed. */
module Grid {

  datatype GridWrite<+T> = SetDataValue(field: string, value: T)
}

/** Sequence helpers that mirror the JavaScript array operations the components use. */
module Sequences {

  /** No element occurs twice in `s`. */
  predicate Distinct<T(==)>(s: seq<T>) {
    forall i, j :: 0 <= i < j < |s| ==> s[i] != s[j]
  }

  /** `s` with every occurrence of `x` removed and the rest kept in order:
      JavaScript's `s.filter(o => o !== x)`. */
  function RemoveAll<T(==,!new)>(s: seq<T>, x: T): (r: seq<T>)
    ensures x !in r
    ensures forall y :: y in r <==> y in s && y != x
    ensures |r| <= |s|
    ensures x !in s ==> r == s
    ensures multiset(r) == multiset(s)[x := 0]
  {
    assert |s| > 0 ==> s == [s[0]] + s[1..];
    if |s| == 0 then []
    else if s[0] == x then RemoveAll(s[1..], x)
    else [s[0]] + RemoveAll(s[1..], x)
  }

  /** `s` without the element at position `idx`: JavaScript's
      `s.filter((_, i) => i !== idx)`. A position outside `s` drops nothing. */
  function DropIndex<T>(s: seq<T>, idx: int): (r: seq<T>)
    ensures |r| == if 0 <= idx < |s| then |s| - 1 else |s|
  {
    if |s| == 0 then []
    else (if idx == 0 then [] else [s[0]]) + DropIndex(s[1..], idx - 1)
  }

  lemma DistinctCons<T>(x: T, s: seq<T>)
    requires Distinct(s) && x !in s
    ensures Distinct([x] + s)
  {
    var t := [x] + s;
    forall i, j | 0 <= i < j < |t|
      ensures t[i] != t[j]
    {
      assert t[j] == s[j - 1];
      if i > 0 {
        assert t[i] == s[i - 1];
      } else {
        assert s[j - 1] in s;
      }
    }
  }

  /** Filtering a value out of a duplicate-free sequence keeps it duplicate-free. */
  lemma {:induction false} RemoveAllKeepsDistinct<T(!new)>(s: seq<T>, x: T)
    requires Distinct(s)
    ensures Distinct(RemoveAll(s, x))
  {
    if |s| > 0 {
      DistinctTail(s);
      RemoveAllKeepsDistinct(s[1..], x);
      if s[0] != x {
        DistinctCons(s[0], RemoveAll(s[1..], x));
      }
    }
  }

  lemma DistinctTail<T>(s: seq<T>)
    requires Distinct(s) && |s| > 0
    ensures Distinct(s[1..]) && s[0] !in s[1..]
  {
    forall i, j | 0 <= i < j < |s[1..]| ensures s[1..][i] != s[1..][j] {
      assert s[1..][i] == s[i + 1] && s[1..][j] == s[j + 1];
    }
    forall i | 0 <= i < |s[1..]| ensures s[1..][i] != s[0] {
      assert s[1..][i] == s[i + 1];
    }
  }

  /** In a duplicate-free sequence, filtering out the value at position `k`
      removes exactly that position: the other elements keep their order. */
  lemma {:induction false} RemoveAllOfDistinctIsSplice<T(!new)>(s: seq<T>, k: nat)
    requires Distinct(s) && k < |s|
    ensures RemoveAll(s, s[k]) == s[..k] + s[k + 1..]
  {
    var t := s[1..];
    DistinctTail(s);
    if k == 0 {
      assert RemoveAll(s, s[0]) == RemoveAll(t, s[0]);
      assert RemoveAll(t, s[0]) == t;
      assert s[..0] + s[1..] == t;
    } else {
      assert s[k] == t[k - 1];
      assert s[0] != s[k];
      RemoveAllOfDistinctIsSplice(t, k - 1);
      assert RemoveAll(s, s[k]) == [s[0]] + RemoveAll(t, t[k - 1]);
      ConsSplice(s, k);
    }
  }

  lemma ConsSplice<T>(s: seq<T>, k: nat)
    requires 0 < k < |s|
    ensures [s[0]] + (s[1..][..k - 1] + s[1..][k..]) == s[..k] + s[k + 1..]
  {
    assert [s[0]] + s[1..][..k - 1] == s[..k];
    assert s[1..][k..] == s[k + 1..];
  }

  /** Dropping a position keeps every element before it in place and shifts
      every element after it down by one; a position outside `s` changes nothing. */
  lemma {:induction false} DropIndexIsSplice<T>(s: seq<T>, idx: int)
    ensures 0 <= idx < |s| ==> DropIndex(s, idx) == s[..idx] + s[idx + 1..]
    ensures !(0 <= idx < |s|) ==> DropIndex(s, idx) == s
  {
    if |s| > 0 {
      DropIndexIsSplice(s[1..], idx - 1);
      if idx == 0 {
        assert DropIndex(s[1..], -1) == s[1..];
        assert s[..0] + s[1..] == s[1..];
      } else if 0 < idx < |s| {
        assert [s[0]] + (s[1..][..idx - 1] + s[1..][idx..]) == s[..idx] + s[idx + 1..];
      } else {
        assert [s[0]] + s[1..] == s;
      }
    }
  }
}
