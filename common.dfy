/** Small shared vocabulary: optional values, results, and the ORM's
    "filter a table" query, which the model returns in ascending id order. */
module Common {

  datatype Option<+T> = None | Some(value: T)

  datatype Result<+T, +E> = Ok(value: T) | Err(error: E)

  /** Every key of the table is below the next id the table would hand out. */
  ghost predicate KeysBelow<V>(m: map<nat, V>, bound: nat)
  {
    forall k :: k in m ==> k < bound
  }

  ghost predicate StrictlyIncreasing(s: seq<nat>)
  {
    forall i, j :: 0 <= i < j < |s| ==> s[i] < s[j]
  }

  /** The ids below `bound` whose record satisfies `keep`, in ascending order:
      the rows a `Model.objects.filter(...)` query returns. */
  function IdsBelow<V>(m: map<nat, V>, keep: V -> bool, bound: nat): (r: seq<nat>)
    ensures forall k :: k in r <==> k < bound && k in m && keep(m[k])
    ensures StrictlyIncreasing(r)
    decreases bound
  {
    if bound == 0 then []
    else
      var rest := IdsBelow(m, keep, bound - 1);
      var k := bound - 1;
      assert forall i :: 0 <= i < |rest| ==> rest[i] in rest;
      if k in m && keep(m[k]) then rest + [k] else rest
  }

  /** The elements of a sequence, as a set. */
  ghost function Elems(s: seq<nat>): set<nat>
  {
    set k | k in s
  }

  /** The ids of the records satisfying `keep`, as a set: what `.count()` on a
      filter counts. */
  function Matching<V>(m: map<nat, V>, keep: V -> bool): set<nat>
  {
    set k | k in m && keep(m[k])
  }

  /** The filter's rows as a set, so that counts and listings agree. */
  lemma IdsBelowAsSet<V>(m: map<nat, V>, keep: V -> bool, bound: nat)
    requires KeysBelow(m, bound)
    ensures Elems(IdsBelow(m, keep, bound)) == Matching(m, keep)
    ensures |IdsBelow(m, keep, bound)| == |Matching(m, keep)|
  {
    DistinctCardinality(IdsBelow(m, keep, bound));
  }

  /** Adding a record adds its id to the count exactly when it matches. */
  lemma MatchingAfterInsert<V>(m: map<nat, V>, keep: V -> bool, k: nat, v: V)
    requires k !in m
    ensures Matching(m[k := v], keep) == Matching(m, keep) + (if keep(v) then {k} else {})
    ensures |Matching(m[k := v], keep)| == |Matching(m, keep)| + (if keep(v) then 1 else 0)
  {
    OthersUnchanged(m, keep, k, v);
    var before := Matching(m, keep);
    var after := Matching(m[k := v], keep);
    if keep(v) {
      assert after == before + {k} && k !in before;
    } else {
      assert after == before;
    }
  }

  lemma OthersUnchanged<V>(m: map<nat, V>, keep: V -> bool, k: nat, v: V)
    requires k !in m
    ensures Matching(m[k := v], keep) - {k} == Matching(m, keep)
    ensures k in Matching(m[k := v], keep) <==> keep(v)
  {
    forall x | x != k
      ensures x in Matching(m[k := v], keep) <==> x in Matching(m, keep)
    {
      if x in m {
        assert m[k := v][x] == m[x];
      }
    }
  }

  /** Removing a record removes its id from the count, if it was counted. */
  lemma MatchingAfterRemove<V>(m: map<nat, V>, keep: V -> bool, k: nat)
    requires k in m
    ensures Matching(m - {k}, keep) == Matching(m, keep) - {k}
    ensures |Matching(m - {k}, keep)| == |Matching(m, keep)| - (if keep(m[k]) then 1 else 0)
  {
    var before := Matching(m, keep);
    var after := Matching(m - {k}, keep);
    forall x | x in before - {k} ensures x in after {
      assert (m - {k})[x] == m[x];
    }
  }

  /** A sequence without repetitions has as many elements as its set. */
  lemma {:induction false} DistinctCardinality(r: seq<nat>)
    requires StrictlyIncreasing(r)
    ensures |Elems(r)| == |r|
  {
    if r != [] {
      var last := r[|r| - 1];
      var front := r[..|r| - 1];
      assert StrictlyIncreasing(front);
      DistinctCardinality(front);
      assert last !in Elems(front);
      assert r == front + [last];
      assert Elems(r) == Elems(front) + {last};
    }
  }
}
