/** Small shared vocabulary: optional values and facts about sequences
    without repeated elements. */
module Base {

  /** A value that may be absent (Python's `None`). */
  datatype Option<T> = None | Some(value: T)

  /** No element occurs twice. */
  predicate Distinct<T(==)>(s: seq<T>) {
    forall i, j :: 0 <= i < j < |s| ==> s[i] != s[j]
  }

  /** The elements of a sequence, forgetting order and repetition. */
  function ToSet<T>(s: seq<T>): set<T> {
    set x | x in s
  }

  lemma ToSetSnoc<T>(p: seq<T>, x: T)
    ensures ToSet(p + [x]) == ToSet(p) + {x}
  {
    assert forall y :: y in p + [x] <==> y in p || y == x;
  }

  /** A sequence has as many distinct elements as it has positions exactly
      when no element repeats; otherwise it has fewer. */
  lemma {:induction false} DistinctCardinality<T>(s: seq<T>)
    ensures |ToSet(s)| <= |s|
    ensures |ToSet(s)| == |s| <==> Distinct(s)
    decreases |s|
  {
    if |s| == 0 {
      assert ToSet(s) == {};
    } else {
      var p, x := s[..|s| - 1], s[|s| - 1];
      assert s == p + [x];
      DistinctCardinality(p);
      ToSetSnoc(p, x);
      if x in p {
        assert ToSet(s) == ToSet(p);
        var k :| 0 <= k < |p| && p[k] == x;
        assert s[k] == s[|s| - 1];
      } else {
        assert x !in ToSet(p);
        assert |ToSet(s)| == |ToSet(p)| + 1;
        assert Distinct(s) <==> Distinct(p);
      }
    }
  }

  /** The elements of `s` in order of first occurrence, each once. */
  function Dedup<T(==)>(s: seq<T>): seq<T>
    decreases |s|
  {
    if |s| == 0 then []
    else
      var r := Dedup(s[..|s| - 1]);
      if s[|s| - 1] in r then r else r + [s[|s| - 1]]
  }

  /** Deduplication repeats nothing and keeps every element. */
  lemma {:induction false} DedupSpec<T>(s: seq<T>)
    ensures Distinct(Dedup(s))
    ensures ToSet(Dedup(s)) == ToSet(s)
    decreases |s|
  {
    if |s| > 0 {
      var p, x := s[..|s| - 1], s[|s| - 1];
      DedupSpec(p);
      assert s == p + [x];
      ToSetSnoc(p, x);
      ToSetSnoc(Dedup(p), x);
      if x !in Dedup(p) {
        assert x !in ToSet(Dedup(p));
      }
    }
  }

  /** Removing repetitions leaves a single element exactly when the
      sequence repeats that element throughout. */
  lemma DedupSingleton<T>(s: seq<T>, x: T)
    requires |s| > 0
    ensures Dedup(s) == [x] <==> forall i :: 0 <= i < |s| ==> s[i] == x
  {
    var r := Dedup(s);
    DedupSpec(s);
    if r == [x] {
      assert ToSet(s) == {x};
      forall i | 0 <= i < |s| ensures s[i] == x {
        assert s[i] in ToSet(s);
      }
    }
    if forall i :: 0 <= i < |s| ==> s[i] == x {
      assert ToSet(s) == {x} by {
        assert s[0] in ToSet(s);
      }
      DistinctCardinality(r);
      assert |r| == 1;
      assert r[0] in ToSet(r);
    }
  }
}
