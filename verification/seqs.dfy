/** Sequence facts the aggregation relies on: removing duplicates while
    keeping the order of first occurrence. */
module Seqs {

  /** No element occurs twice. */
  ghost predicate NoDup<T>(s: seq<T>)
  {
    forall i, j :: 0 <= i < j < |s| ==> s[i] != s[j]
  }

  /** The position of the first occurrence of `x` in `s`. */
  function IndexOf<T(==)>(s: seq<T>, x: T): (i: nat)
    requires x in s
    ensures i < |s| && s[i] == x
    ensures forall j :: 0 <= j < i ==> s[j] != x
  {
    if s[0] == x then 0 else 1 + IndexOf(s[1..], x)
  }

  /** The distinct elements of `s`, each kept where it first occurs. */
  function Dedup<T(==)>(s: seq<T>): seq<T>
  {
    if |s| == 0 then []
    else
      var prefix := Dedup(s[..|s| - 1]);
      if s[|s| - 1] in s[..|s| - 1] then prefix else prefix + [s[|s| - 1]]
  }

  /** `Dedup(s)` holds each element of `s` exactly once and nothing else. */
  lemma {:induction false} DedupSpec<T>(s: seq<T>)
    ensures forall i :: 0 <= i < |Dedup(s)| ==> Dedup(s)[i] in s
    ensures forall i :: 0 <= i < |s| ==> s[i] in Dedup(s)
    ensures NoDup(Dedup(s))
    ensures |Dedup(s)| <= |s|
  {
    if |s| > 0 {
      var p := s[..|s| - 1];
      assert s == p + [s[|s| - 1]];
      DedupSpec(p);
    }
  }

  /** Appending one element adds it to the distinct elements exactly when it is new. */
  lemma DedupSnoc<T>(s: seq<T>, x: T)
    ensures Dedup(s + [x]) == if x in s then Dedup(s) else Dedup(s) + [x]
  {
    assert (s + [x])[..|s|] == s;
  }

  /** The first occurrence of an element is unaffected by appending. */
  lemma IndexOfSnoc<T>(s: seq<T>, x: T, y: T)
    requires y in s
    ensures IndexOf(s + [x], y) == IndexOf(s, y)
  {
    if s[0] != y {
      assert (s + [x])[1..] == s[1..] + [x];
      IndexOfSnoc(s[1..], x, y);
    }
  }

  /** A new element's first occurrence is where it was appended. */
  lemma IndexOfNew<T>(s: seq<T>, x: T)
    requires x !in s
    ensures IndexOf(s + [x], x) == |s|
  {
    if |s| > 0 {
      assert (s + [x])[1..] == s[1..] + [x];
      IndexOfNew(s[1..], x);
    }
  }

  /** The distinct elements come in the order of their first occurrence. */
  lemma {:induction false} DedupFirstOccurrenceOrder<T>(s: seq<T>)
    ensures var d := Dedup(s);
      forall i, j | 0 <= i < j < |d| :: d[i] in s && d[j] in s && IndexOf(s, d[i]) < IndexOf(s, d[j])
  {
    if |s| > 0 {
      var p := s[..|s| - 1];
      var x := s[|s| - 1];
      assert s == p + [x];
      DedupFirstOccurrenceOrder(p);
      DedupSnoc(p, x);
      DedupSpec(p);
      var d := Dedup(s);
      forall i, j | 0 <= i < j < |d|
        ensures IndexOf(s, d[i]) < IndexOf(s, d[j])
      {
        assert i < |Dedup(p)|;
        assert d[i] == Dedup(p)[i];
        assert Dedup(p)[i] in p;
        IndexOfSnoc(p, x, d[i]);
        if j < |Dedup(p)| {
          IndexOfSnoc(p, x, d[j]);
        } else {
          assert d[j] == x && x !in p;
          assert IndexOf(s, x) == |p|;
        }
      }
    }
  }

  /** A non-empty sequence of one repeated value has that value as its only distinct element. */
  lemma {:induction false} DedupConstant<T>(s: seq<T>, c: T)
    requires |s| > 0
    requires forall i :: 0 <= i < |s| ==> s[i] == c
    ensures Dedup(s) == [c]
  {
    var p := s[..|s| - 1];
    if |p| == 0 {
      assert s == [] + [c];
      DedupSnoc([], c);
    } else {
      assert s == p + [c];
      DedupConstant(p, c);
      DedupSnoc(p, c);
      assert c == p[0];
    }
  }

  /** The set of elements of a sequence. */
  ghost function Elems<T>(s: seq<T>): set<T>
  {
    set i | 0 <= i < |s| :: s[i]
  }

  /** A sequence has at least as many positions as distinct elements, and
      exactly as many when no element repeats. */
  lemma {:induction false} ElemsCard<T>(s: seq<T>)
    ensures |Elems(s)| <= |s|
    ensures |Elems(s)| == |s| <==> NoDup(s)
  {
    if |s| > 0 {
      var rest := s[1..];
      ElemsCard(rest);
      assert Elems(s) == {s[0]} + Elems(rest) by {
        forall x | x in Elems(s) ensures x in {s[0]} + Elems(rest) {
          var i :| 0 <= i < |s| && s[i] == x;
          if i > 0 { assert rest[i - 1] == x; }
        }
        forall x | x in Elems(rest) ensures x in Elems(s) {
          var i :| 0 <= i < |rest| && rest[i] == x;
          assert s[i + 1] == x;
        }
      }
      if s[0] in Elems(rest) {
        var i :| 0 <= i < |rest| && rest[i] == s[0];
        assert s[i + 1] == s[0];
        assert !NoDup(s);
      } else {
        assert |Elems(s)| == |Elems(rest)| + 1;
        if NoDup(s) {
          assert NoDup(rest) by {
            forall i, j | 0 <= i < j < |rest| ensures rest[i] != rest[j] {
              assert rest[i] == s[i + 1] && rest[j] == s[j + 1];
            }
          }
        }
        if NoDup(rest) {
          forall i, j | 0 <= i < j < |s| ensures s[i] != s[j] {
            if i == 0 {
              assert s[j] == rest[j - 1];
            } else {
              assert s[i] == rest[i - 1] && s[j] == rest[j - 1];
            }
          }
        }
      }
    }
  }

  /** A subset is no larger than its superset, and as large only when it is the superset. */
  lemma SubsetCard<T>(a: set<T>, b: set<T>)
    requires a <= b
    ensures |a| <= |b|
    ensures |a| == |b| ==> a == b
  {
    var d := b - a;
    assert b == a + d;
    assert a !! d;
    assert |b| == |a| + |d|;
    if |d| > 0 {
      var x :| x in d;
      assert x in b && x !in a;
    }
  }
}
