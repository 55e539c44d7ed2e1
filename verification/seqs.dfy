/** Collect: the filter-and-convert pass that every append-in-a-loop of the
    tool performs, and the facts about it that the tool's operations share. */
module Seqs {
  import opened Models

  /** The zero- or one-element sequence an optional value stands for. */
  function Pick<U>(o: Option<U>): (r: seq<U>)
    ensures |r| <= 1
    ensures if o.Some? then r == [o.value] else r == []
  {
    match o
    case None => []
    case Some(u) => [u]
  }

  /** What a loop `for x in s { if f(x) is Some(u) { out = append(out, u) } }`
      leaves in `out`. Defined from the back so that a loop over `s[..i]`
      extends it one element at a time. */
  function Collect<T, U>(s: seq<T>, f: T -> Option<U>): (out: seq<U>)
  {
    if |s| == 0 then []
    else Collect(s[..|s| - 1], f) + Pick(f(s[|s| - 1]))
  }

  lemma CollectSnoc<T, U>(s: seq<T>, x: T, f: T -> Option<U>)
    ensures Collect(s + [x], f) == Collect(s, f) + Pick(f(x))
  {
    assert (s + [x])[..|s|] == s;
  }

  lemma {:induction false} CollectLength<T, U>(s: seq<T>, f: T -> Option<U>)
    ensures |Collect(s, f)| <= |s|
  {
    if |s| > 0 {
      CollectLength(s[..|s| - 1], f);
    }
  }

  /** Collect keeps relative order: it distributes over concatenation. */
  lemma {:induction false} CollectAppend<T, U>(a: seq<T>, b: seq<T>, f: T -> Option<U>)
    ensures Collect(a + b, f) == Collect(a, f) + Collect(b, f)
    decreases |b|
  {
    if |b| == 0 {
      assert a + b == a;
    } else {
      var b', x := b[..|b| - 1], b[|b| - 1];
      calc {
        Collect(a + b, f);
        { assert a + b == (a + b') + [x]; }
        Collect((a + b') + [x], f);
        { CollectSnoc(a + b', x, f); }
        Collect(a + b', f) + Pick(f(x));
        { CollectAppend(a, b', f); }
        Collect(a, f) + Collect(b', f) + Pick(f(x));
        { CollectSnoc(b', x, f); assert b == b' + [x]; }
        Collect(a, f) + Collect(b, f);
      }
    }
  }

  lemma {:induction false} CollectMember<T, U>(s: seq<T>, f: T -> Option<U>, y: U)
    ensures y in Collect(s, f) <==> exists i :: 0 <= i < |s| && f(s[i]) == Some(y)
  {
    if |s| > 0 {
      var s' := s[..|s| - 1];
      CollectMember(s', f, y);
      if y in Collect(s', f) {
        var i :| 0 <= i < |s'| && f(s'[i]) == Some(y);
        assert s[i] == s'[i];
      }
      if exists i :: 0 <= i < |s| && f(s[i]) == Some(y) {
        var i :| 0 <= i < |s| && f(s[i]) == Some(y);
        if i < |s| - 1 {
          assert s'[i] == s[i];
        }
      }
    }
  }

  /** Two pickers that never both pick the same element together pick at
      most as many elements as there are. */
  lemma {:induction false} CollectDisjoint<T, U, V>(s: seq<T>, f: T -> Option<U>, g: T -> Option<V>)
    requires forall i :: 0 <= i < |s| ==> f(s[i]).None? || g(s[i]).None?
    ensures |Collect(s, f)| + |Collect(s, g)| <= |s|
  {
    if |s| > 0 {
      var s' := s[..|s| - 1];
      assert forall i :: 0 <= i < |s'| ==> s'[i] == s[i];
      CollectDisjoint(s', f, g);
    }
  }

  /** `f` and `g` place `x` in exactly one of their outputs, unchanged. */
  ghost predicate Exclusive<T>(f: T -> Option<T>, g: T -> Option<T>, x: T)
  {
    (f(x) == Some(x) && g(x) == None) || (f(x) == None && g(x) == Some(x))
  }

  /** Two filters that place every element in exactly one of them partition
      the sequence. */
  lemma {:induction false} CollectPartition<T>(s: seq<T>, f: T -> Option<T>, g: T -> Option<T>)
    requires forall y :: y in s ==> Exclusive(f, g, y)
    ensures multiset(Collect(s, f)) + multiset(Collect(s, g)) == multiset(s)
  {
    if |s| > 0 {
      var s', x := s[..|s| - 1], s[|s| - 1];
      MultisetSnoc(s);
      CollectPartition(s', f, g);
      assert Exclusive(f, g, x);
      PartitionStep(Collect(s', f), Collect(s', g), multiset(s'), x, Pick(f(x)), Pick(g(x)));
    }
  }

  lemma MultisetSnoc<T>(s: seq<T>)
    requires |s| > 0
    ensures multiset(s) == multiset(s[..|s| - 1]) + multiset{s[|s| - 1]}
  {
    assert s == s[..|s| - 1] + [s[|s| - 1]];
  }

  lemma PartitionStep<T>(cf: seq<T>, cg: seq<T>, m: multiset<T>, x: T, pf: seq<T>, pg: seq<T>)
    requires multiset(cf) + multiset(cg) == m
    requires (pf == [x] && pg == []) || (pf == [] && pg == [x])
    ensures multiset(cf + pf) + multiset(cg + pg) == m + multiset{x}
  {
  }

  /** One more step of a loop that collects over `s[..i]`. */
  lemma CollectPrefix<T, U>(s: seq<T>, i: int, f: T -> Option<U>)
    requires 0 <= i < |s|
    ensures Collect(s[..i + 1], f) == Collect(s[..i], f) + Pick(f(s[i]))
  {
    assert s[..i + 1][..i] == s[..i];
  }
}
