/** The operations of C#'s List<T> that the board uses, on sequences. */
module Lists {

  /** No element occurs twice. */
  ghost predicate Distinct<T>(s: seq<T>)
  {
    forall i, j :: 0 <= i < j < |s| ==> s[i] != s[j]
  }

  /** List.Remove: drops the first occurrence of `x`, if there is one. */
  function RemoveFirst<T(==)>(s: seq<T>, x: T): (r: seq<T>)
    ensures x in s ==> |r| == |s| - 1
    ensures x !in s ==> r == s
  {
    if s == [] then []
    else if s[0] == x then s[1..]
    else [s[0]] + RemoveFirst(s[1..], x)
  }

  /** The elements of `s` that are not in `gone`, in the order of `s`. */
  function Without<T(==)>(s: seq<T>, gone: seq<T>): (r: seq<T>)
    ensures forall y :: y in r ==> y in s && y !in gone
    ensures forall y :: y in s && y !in gone ==> y in r
    ensures Distinct(s) ==> Distinct(r)
  {
    if s == [] then []
    else (if s[0] in gone then [] else [s[0]]) + Without(s[1..], gone)
  }

  /** Removing nothing keeps the whole list. */
  lemma {:induction false} WithoutNothing<T>(s: seq<T>)
    ensures Without(s, []) == s
  {
    if s != [] {
      WithoutNothing(s[1..]);
      assert s == [s[0]] + s[1..];
    }
  }

  /** Adding to `gone` something that `s` does not hold changes nothing. */
  lemma {:induction false} WithoutAbsent<T>(s: seq<T>, gone: seq<T>, x: T)
    requires x !in s
    ensures Without(s, gone + [x]) == Without(s, gone)
  {
    if s != [] {
      WithoutAbsent(s[1..], gone, x);
    }
  }

  /** Dropping the head of a list without repetitions leaves one without repetitions,
      and the head is not in the rest. */
  lemma DistinctTail<T>(s: seq<T>)
    requires Distinct(s) && s != []
    ensures Distinct(s[1..]) && s[0] !in s[1..]
  {
    var rest := s[1..];
    forall i, j | 0 <= i < j < |rest| ensures rest[i] != rest[j] {
      assert rest[i] == s[i + 1] && rest[j] == s[j + 1];
    }
    forall k | 0 <= k < |rest| ensures rest[k] != s[0] {
      assert rest[k] == s[k + 1];
    }
  }

  /** Removing one more element with List.Remove extends `gone` by it. */
  lemma {:induction false} RemoveFirstWithout<T>(s: seq<T>, gone: seq<T>, x: T)
    requires Distinct(s)
    ensures RemoveFirst(Without(s, gone), x) == Without(s, gone + [x])
  {
    if s != [] {
      DistinctTail(s);
      var w := Without(s[1..], gone);
      var w' := Without(s[1..], gone + [x]);
      assert Without(s, gone + [x]) == (if s[0] in gone + [x] then [] else [s[0]]) + w';
      if s[0] in gone {
        assert Without(s, gone) == w;
        RemoveFirstWithout(s[1..], gone, x);
      } else if s[0] == x {
        assert Without(s, gone) == [x] + w;
        WithoutAbsent(s[1..], gone, x);
      } else {
        assert Without(s, gone) == [s[0]] + w;
        RemoveFirstWithout(s[1..], gone, x);
        assert RemoveFirst([s[0]] + w, x) == [s[0]] + RemoveFirst(w, x);
      }
    }
  }

  /** Removing the members of `gone` one by one: each List.Remove drops exactly one element. */
  lemma RemoveNext<T>(s: seq<T>, gone: seq<T>, i: nat)
    requires Distinct(s) && Distinct(gone) && i < |gone| && gone[i] in s
    ensures RemoveFirst(Without(s, gone[..i]), gone[i]) == Without(s, gone[..i + 1])
    ensures |Without(s, gone[..i + 1])| == |Without(s, gone[..i])| - 1
  {
    assert gone[..i] + [gone[i]] == gone[..i + 1];
    assert gone[i] in Without(s, gone[..i]);
    RemoveFirstWithout(s, gone[..i], gone[i]);
  }

  /** Appending one element to the second part of a concatenation appends it to the whole. */
  lemma AppendLast<T>(a: seq<T>, b: seq<T>, x: T)
    ensures a + (b + [x]) == (a + b) + [x]
  {
  }

  /** The elements of `s` at the positions `idx`, in that order. */
  function Pick<T>(s: seq<T>, idx: seq<nat>): (r: seq<T>)
    requires forall p :: 0 <= p < |idx| ==> idx[p] < |s|
    ensures |r| == |idx|
    ensures forall p :: 0 <= p < |idx| ==> r[p] == s[idx[p]]
  {
    if idx == [] then [] else [s[idx[0]]] + Pick(s, idx[1..])
  }

  /** In a list without repetitions, an element is picked exactly when its position is. */
  lemma PickMember<T>(s: seq<T>, idx: seq<nat>, j: nat)
    requires Distinct(s) && j < |s|
    requires forall p :: 0 <= p < |idx| ==> idx[p] < |s|
    ensures s[j] in Pick(s, idx) <==> j in idx
  {
    var r := Pick(s, idx);
    if s[j] in r {
      var p :| 0 <= p < |r| && r[p] == s[j];
      assert idx[p] == j;
    }
    if j in idx {
      var p :| 0 <= p < |idx| && idx[p] == j;
      assert r[p] == s[j];
    }
  }

  /** Distinct positions of a list without repetitions pick distinct elements. */
  lemma PickDistinct<T>(s: seq<T>, idx: seq<nat>)
    requires Distinct(s) && Distinct(idx)
    requires forall p :: 0 <= p < |idx| ==> idx[p] < |s|
    ensures Distinct(Pick(s, idx))
  {
  }

  /** The set of elements of a list without repetitions has as many elements as the list. */
  lemma {:induction false} DistinctCard<T>(s: seq<T>)
    requires Distinct(s)
    ensures |set x | x in s| == |s|
  {
    if s != [] {
      var rest := s[1..];
      DistinctTail(s);
      DistinctCard(rest);
      assert (set x | x in s) == {s[0]} + (set x | x in rest) by {
        assert s == [s[0]] + rest;
      }
    }
  }
}
