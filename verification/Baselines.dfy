/** "The latest published row of every cohort", as the window query over all publications
    delivers it. */
module Baselines {
  import opened Statistics

  /** ORDER BY published_at DESC, id DESC ranks `a` below `b`. */
  predicate RanksBelow(a: Batch, b: Batch) {
    match (a.publishedAt, b.publishedAt)
    case (None, None) => a.id < b.id
    case (None, Some(_)) => true
    case (Some(_), None) => false
    case (Some(x), Some(y)) => x < y || (x == y && a.id < b.id)
  }

  /** Publications of the current rule version. */
  predicate Eligible(batches: map<nat, Batch>, id: nat) {
    id in batches && batches[id].status == Published && batches[id].ruleVersion == RULE_VERSION
  }

  ghost predicate Holds<K, R>(tables: map<nat, seq<R>>, keyOf: R -> K, id: nat, k: K) {
    id in tables && exists r :: r in tables[id] && keyOf(r) == k
  }

  /** Rows filed under their own batch, one per key. */
  ghost predicate WellFiled<K, R>(tables: map<nat, seq<R>>, keyOf: R -> K, batchOf: R -> nat) {
    forall id :: id in tables ==>
      && (forall r :: r in tables[id] ==> batchOf(r) == id)
      && DistinctBy(tables[id], keyOf)
  }

  predicate DistinctBy<K(==), R>(rows: seq<R>, keyOf: R -> K) {
    forall i, j :: 0 <= i < j < |rows| ==> keyOf(rows[i]) != keyOf(rows[j])
  }

  /** `r` is a row of an eligible batch, and of all such batches holding key `k` its own ranks highest. */
  ghost predicate IsTop<K, R>(
    batches: map<nat, Batch>, tables: map<nat, seq<R>>, keyOf: R -> K, batchOf: R -> nat, k: K, r: R) {
    && keyOf(r) == k && Eligible(batches, batchOf(r))
    && batchOf(r) in tables && r in tables[batchOf(r)]
    && forall id :: Eligible(batches, id) && Holds(tables, keyOf, id, k) && id != batchOf(r)
                    ==> RanksBelow(batches[id], batches[batchOf(r)])
  }

  ghost predicate IsBaselines<K(!new), R(!new)>(
    batches: map<nat, Batch>, tables: map<nat, seq<R>>, keyOf: R -> K, batchOf: R -> nat, base: map<K, R>) {
    && (forall k :: k in base ==> IsTop(batches, tables, keyOf, batchOf, k, base[k]))
    && (forall id, k :: Eligible(batches, id) && Holds(tables, keyOf, id, k) ==> k in base)
  }

  ghost predicate IdsMatch(batches: map<nat, Batch>) {
    forall id :: id in batches ==> batches[id].id == id
  }

  /** The scan behind the window query: visit every eligible batch, keep the highest-ranked row per key. */
  method LatestBaselines<K(==, !new), R(==, !new)>(
    batches: map<nat, Batch>, tables: map<nat, seq<R>>, keyOf: R -> K, batchOf: R -> nat)
    returns (base: map<K, R>)
    requires IdsMatch(batches) && WellFiled(tables, keyOf, batchOf)
    ensures IsBaselines(batches, tables, keyOf, batchOf, base)
  {
    base := map[];
    var todo := tables.Keys;
    ghost var seen: map<nat, seq<R>> := map[];
    while todo != {}
      invariant todo <= tables.Keys && seen.Keys == tables.Keys - todo
      invariant forall id :: id in seen ==> seen[id] == tables[id]
      invariant IsBaselines(batches, seen, keyOf, batchOf, base)
      decreases todo
    {
      var id :| id in todo;
      todo := todo - {id};
      if Eligible(batches, id) {
        base := VisitTable(batches, seen, id, tables[id], keyOf, batchOf, base);
      }
      seen := seen[id := tables[id]];
    }
    assert seen == tables;
  }

  method VisitTable<K(==, !new), R(==, !new)>(
    batches: map<nat, Batch>, ghost seen: map<nat, seq<R>>, id: nat, rows: seq<R>,
    keyOf: R -> K, batchOf: R -> nat, initial: map<K, R>)
    returns (base: map<K, R>)
    requires IdsMatch(batches) && Eligible(batches, id) && id !in seen
    requires DistinctBy(rows, keyOf) && forall r :: r in rows ==> batchOf(r) == id
    requires IsBaselines(batches, seen, keyOf, batchOf, initial)
    ensures IsBaselines(batches, seen[id := rows], keyOf, batchOf, base)
  {
    base := initial;
    assert IsBaselines(batches, seen[id := []], keyOf, batchOf, base);
    for i := 0 to |rows|
      invariant IsBaselines(batches, seen[id := rows[..i]], keyOf, batchOf, base)
    {
      var r := rows[i];
      var k := keyOf(r);
      assert r in rows;
      assert rows[..i + 1] == rows[..i] + [r];
      assert seen[id := rows[..i]][id := rows[..i] + [r]] == seen[id := rows[..i + 1]];
      VisitRow(batches, seen[id := rows[..i]], id, r, keyOf, batchOf, base);
      if k !in base || RanksBelow(batches[batchOf(base[k])], batches[id]) {
        base := base[k := r];
      }
    }
    assert rows[..|rows|] == rows;
  }

  /** One more row of batch `id` takes over its key exactly when its batch ranks higher. */
  lemma VisitRow<K(!new), R(!new)>(
    batches: map<nat, Batch>, tables: map<nat, seq<R>>, id: nat, r: R, keyOf: R -> K, batchOf: R -> nat,
        base: map<K, R>)
    requires IdsMatch(batches) && Eligible(batches, id) && id in tables && batchOf(r) == id
    requires forall r' :: r' in tables[id] ==> batchOf(r') == id && keyOf(r') != keyOf(r)
    requires IsBaselines(batches, tables, keyOf, batchOf, base)
    ensures var k := keyOf(r);
            var base' := if k !in base || RanksBelow(batches[batchOf(base[k])], batches[id])
                then base[k := r] else base;
            IsBaselines(batches, tables[id := tables[id] + [r]], keyOf, batchOf, base')
  {
    var k, after := keyOf(r), tables[id := tables[id] + [r]];
    assert r in after[id];
    assert forall id', k' :: Holds(after, keyOf, id', k') <==> Holds(tables, keyOf, id', k') || (id' == id && k' == k);
  }
}
