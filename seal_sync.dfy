/** cron/sync_selos.php: every seal the API lists is looked up in `selos`
    (by external id when it has a truthy one, by name otherwise), then
    updated in place or inserted, while three counters record the
    outcomes. A seal whose statements throw counts as an error and the loop
    goes on. */
module SealSync {

  import opened Wrappers
  import opened Store

  /** The fields of a seal record the script reads; a missing key is None. */
  datatype SealRecord = SealRecord(id: Option<int>, name: Option<string>, shortDescription: Option<string>)

  datatype SealResult = Novo | Atualizado

  /** The script's `$stats`. */
  datatype SealStats = SealStats(novos: nat, atualizados: nat, erros: nat)

  /** The seal table and the counters after some prefix of the seals. */
  datatype SealPass = SealPass(selos: Table<SealRow>, stats: SealStats)

  const NoSealName := "Selo sem nome"

  /** `$sealData['name'] ?? 'Selo sem nome'`. */
  function SealName(s: SealRecord): string
  {
    s.name.GetOr(NoSealName)
  }

  /** `if ($externalId)`: PHP truthiness of an integer id. */
  predicate ByExternalId(s: SealRecord)
  {
    s.id.Some? && s.id.value != 0
  }

  /** Some row of the table carries external id `x`. */
  ghost predicate HasExternal(t: Table<SealRow>, x: int)
  {
    exists k :: k in t.rows && t.rows[k].externalId == Some(x)
  }

  /** The SELECT the script issues: by external id when that is truthy, by
      name otherwise, and never the other as a fallback. */
  function LookupSeal(t: Table<SealRow>, s: SealRecord): (r: Option<nat>)
    requires TableValid(t)
    ensures r.Some? ==> r.value in t.rows
    ensures ByExternalId(s) ==> (r.Some? <==> HasExternal(t, s.id.value))
    ensures ByExternalId(s) && r.Some? ==> t.rows[r.value].externalId == s.id
    ensures !ByExternalId(s) ==> (r.Some? <==> exists k :: k in t.rows && t.rows[k].nome == SealName(s))
    ensures !ByExternalId(s) && r.Some? ==> t.rows[r.value].nome == SealName(s)
  {
    if ByExternalId(s) then
      var r := FindSeloByExternalId(t, s.id.value);
      assert r.Some? ==> t.rows[r.value].externalId == Some(s.id.value);
      assert r.None? ==> forall k :: k in t.rows ==> t.rows[k].externalId != Some(s.id.value);
      r
    else
      var r := FindSeloByNome(t, SealName(s));
      assert r.None? ==> forall k :: k in t.rows ==> t.rows[k].nome != SealName(s);
      r
  }

  /** The body of the try for one seal: a found row gets the new name and
      description and keeps its id and external id; otherwise exactly one
      row (external id, name, description) is inserted. */
  function ProcessSeal(t: Table<SealRow>, s: SealRecord): (r: (Table<SealRow>, SealResult))
    requires TableValid(t)
    ensures TableValid(r.0)
    ensures r.1 == Atualizado <==> LookupSeal(t, s).Some?
    ensures r.1 == Atualizado ==>
              var id := LookupSeal(t, s).value;
              && r.0.nextId == t.nextId && r.0.rows.Keys == t.rows.Keys
              && r.0.rows[id] == SealRow(t.rows[id].externalId, SealName(s), s.shortDescription)
              && (forall k :: k in t.rows && k != id ==> r.0.rows[k] == t.rows[k])
    ensures r.1 == Novo ==>
              && r.0.nextId == t.nextId + 1 && t.nextId !in t.rows
              && r.0.rows == t.rows[t.nextId := SealRow(s.id, SealName(s), s.shortDescription)]
  {
    match LookupSeal(t, s)
    case Some(id) => (SeloUpdated(t, id, SealName(s), s.shortDescription), Atualizado)
    case None => (Insert(t, SealRow(s.id, SealName(s), s.shortDescription)), Novo)
  }

  /** One seal of the loop: counted as an error when it throws, otherwise
      updated or inserted and counted by what happened. */
  function SealTurn(prev: SealPass, s: SealRecord, faulted: bool): (r: SealPass)
    requires TableValid(prev.selos)
    ensures TableValid(r.selos)
  {
    if faulted then prev.(stats := prev.stats.(erros := prev.stats.erros + 1))
    else
      var step := ProcessSeal(prev.selos, s);
      if step.1 == Novo then SealPass(step.0, prev.stats.(novos := prev.stats.novos + 1))
      else SealPass(step.0, prev.stats.(atualizados := prev.stats.atualizados + 1))
  }

  /** The foreach over `seals`; `faults` are the indices whose statements
      throw, which then write nothing. */
  function SealRun(t: Table<SealRow>, seals: seq<SealRecord>, faults: set<nat>): (r: SealPass)
    requires TableValid(t)
    ensures TableValid(r.selos)
    decreases |seals|
  {
    if seals == [] then SealPass(t, SealStats(0, 0, 0))
    else SealTurn(SealRun(t, seals[..|seals| - 1], faults), seals[|seals| - 1], |seals| - 1 in faults)
  }

  /** The indices below `n` whose seal throws. */
  function FaultsBelow(faults: set<nat>, n: nat): set<nat>
  {
    set i | i in faults && i < n
  }

  /** Every seal moves exactly one counter: their sum is the number of
      seals, and `erros` is the number of seals that threw. */
  lemma {:induction false} SealCounters(t: Table<SealRow>, seals: seq<SealRecord>, faults: set<nat>)
    requires TableValid(t)
    ensures var r := SealRun(t, seals, faults);
      && r.stats.novos + r.stats.atualizados + r.stats.erros == |seals|
      && r.stats.erros == |FaultsBelow(faults, |seals|)|
  {
    if seals != [] {
      var n := |seals| - 1;
      SealCounters(t, seals[..n], faults);
      if n in faults {
        assert FaultsBelow(faults, n + 1) == FaultsBelow(faults, n) + {n};
      } else {
        assert FaultsBelow(faults, n + 1) == FaultsBelow(faults, n);
      }
    }
  }

  /** `novos` is exactly the number of rows the run adds; no row goes away
      and no row's external id changes. */
  lemma {:induction false} SealRowsAdded(t: Table<SealRow>, seals: seq<SealRecord>, faults: set<nat>)
    requires TableValid(t)
    ensures var r := SealRun(t, seals, faults);
      && r.selos.nextId == t.nextId + r.stats.novos
      && |r.selos.rows| == |t.rows| + r.stats.novos
      && t.rows.Keys <= r.selos.rows.Keys
      && (forall k :: k in t.rows ==> r.selos.rows[k].externalId == t.rows[k].externalId)
  {
    if seals != [] {
      var n := |seals| - 1;
      SealRowsAdded(t, seals[..n], faults);
      var prev := SealRun(t, seals[..n], faults);
      if n !in faults {
        var step := ProcessSeal(prev.selos, seals[n]);
        if step.1 == Novo {
          assert prev.selos.nextId !in prev.selos.rows;
          assert |step.0.rows| == |prev.selos.rows| + 1;
        } else {
          assert step.0.rows.Keys == prev.selos.rows.Keys;
          assert |step.0.rows| == |step.0.rows.Keys| == |prev.selos.rows.Keys| == |prev.selos.rows|;
        }
      }
    }
  }

  /** One seal never removes an external id from the table. */
  lemma ProcessSealKeepsExternal(t: Table<SealRow>, s: SealRecord, x: int)
    requires TableValid(t) && HasExternal(t, x)
    ensures HasExternal(ProcessSeal(t, s).0, x)
  {
    var k :| k in t.rows && t.rows[k].externalId == Some(x);
    assert ProcessSeal(t, s).0.rows[k].externalId == Some(x);
  }

  /** A seal processed with a truthy id leaves a row carrying that id. */
  lemma ProcessSealStoresExternal(t: Table<SealRow>, s: SealRecord)
    requires TableValid(t) && ByExternalId(s)
    ensures HasExternal(ProcessSeal(t, s).0, s.id.value)
  {
    var r := ProcessSeal(t, s);
    if r.1 == Novo {
      assert r.0.rows[t.nextId].externalId == s.id;
    } else {
      var id := LookupSeal(t, s).value;
      assert r.0.rows[id].externalId == s.id;
    }
  }

  /** A run never removes an external id from the table. */
  lemma {:induction false} SealRunKeepsExternal(t: Table<SealRow>, seals: seq<SealRecord>, faults: set<nat>, x: int)
    requires TableValid(t) && HasExternal(t, x)
    ensures HasExternal(SealRun(t, seals, faults).selos, x)
  {
    if seals != [] {
      var n := |seals| - 1;
      SealRunKeepsExternal(t, seals[..n], faults, x);
      if n !in faults {
        ProcessSealKeepsExternal(SealRun(t, seals[..n], faults).selos, seals[n], x);
      }
    }
  }

  /** After a run, every seal with a truthy id that did not throw has a row
      with that external id. */
  lemma {:induction false} SealRunStoresExternal(t: Table<SealRow>, seals: seq<SealRecord>, faults: set<nat>, i: nat)
    requires TableValid(t)
    requires i < |seals| && i !in faults && ByExternalId(seals[i])
    ensures HasExternal(SealRun(t, seals, faults).selos, seals[i].id.value)
  {
    var n := |seals| - 1;
    var prev := SealRun(t, seals[..n], faults);
    if i == n {
      ProcessSealStoresExternal(prev.selos, seals[n]);
    } else {
      assert seals[..n][i] == seals[i];
      SealRunStoresExternal(t, seals[..n], faults, i);
      if n !in faults {
        ProcessSealKeepsExternal(prev.selos, seals[n], seals[i].id.value);
      }
    }
  }

  /** When every seal's external id is already in the table, a run inserts
      nothing: it only updates. */
  lemma {:induction false} SealRunUpdatesOnly(t: Table<SealRow>, seals: seq<SealRecord>, faults: set<nat>)
    requires TableValid(t)
    requires forall i :: 0 <= i < |seals| ==> ByExternalId(seals[i]) && HasExternal(t, seals[i].id.value)
    ensures var r := SealRun(t, seals, faults);
      r.stats.novos == 0 && r.selos.nextId == t.nextId && r.selos.rows.Keys == t.rows.Keys
  {
    if seals != [] {
      var n := |seals| - 1;
      SealRunUpdatesOnly(t, seals[..n], faults);
      var prev := SealRun(t, seals[..n], faults);
      if n !in faults {
        SealRunKeepsExternal(t, seals[..n], faults, seals[n].id.value);
        assert LookupSeal(prev.selos, seals[n]).Some?;
      }
    }
  }

  /** Re-running the script over the same seals, all with external ids,
      after a run in which none threw, inserts no new row. */
  lemma SealReRunInsertsNothing(t: Table<SealRow>, seals: seq<SealRecord>, faults: set<nat>)
    requires TableValid(t)
    requires forall i :: 0 <= i < |seals| ==> ByExternalId(seals[i])
    ensures var first := SealRun(t, seals, {});
      var second := SealRun(first.selos, seals, faults);
      second.stats.novos == 0 && second.selos.nextId == first.selos.nextId
  {
    var first := SealRun(t, seals, {});
    forall i | 0 <= i < |seals|
      ensures HasExternal(first.selos, seals[i].id.value)
    {
      SealRunStoresExternal(t, seals, {}, i);
    }
    SealRunUpdatesOnly(first.selos, seals, faults);
  }

  /** One more seal, unfolded. */
  lemma SealRunNext(t: Table<SealRow>, seals: seq<SealRecord>, faults: set<nat>, i: nat)
    requires TableValid(t) && i < |seals|
    ensures SealRun(t, seals[..i + 1], faults) == SealTurn(SealRun(t, seals[..i], faults), seals[i], i in faults)
  {
    assert seals[..i + 1][..i] == seals[..i];
  }

  /** One turn of the script's loop on the live table: the body of the
      try, or the catch when that seal throws. */
  method SyncSeal(db: Database, seal: SealRecord, faulted: bool, stats: SealStats) returns (stats': SealStats)
    requires TableValid(db.selos)
    modifies db`selos
    ensures var turn := SealTurn(SealPass(old(db.selos), stats), seal, faulted);
      db.State() == old(db.State()).(selos := turn.selos) && stats' == turn.stats
  {
    if faulted {
      return stats.(erros := stats.erros + 1);
    }
    var existing := LookupSeal(db.selos, seal);
    if existing.Some? {
      db.UpdateSelo(existing.value, SealName(seal), seal.shortDescription);
      stats' := stats.(atualizados := stats.atualizados + 1);
    } else {
      var _ := db.InsertSelo(SealRow(seal.id, SealName(seal), seal.shortDescription));
      stats' := stats.(novos := stats.novos + 1);
    }
  }

  /** The script's loop over the live `selos` table. */
  method SyncSeals(db: Database, seals: seq<SealRecord>, faults: set<nat>) returns (stats: SealStats)
    requires TableValid(db.selos)
    modifies db`selos
    ensures var r := SealRun(old(db.selos), seals, faults);
      db.State() == old(db.State()).(selos := r.selos) && stats == r.stats
  {
    ghost var start := db.State();
    stats := SealStats(0, 0, 0);
    var i := 0;
    while i < |seals|
      invariant 0 <= i <= |seals|
      invariant TableValid(db.selos)
      invariant db.State() == start.(selos := SealRun(start.selos, seals[..i], faults).selos)
      invariant stats == SealRun(start.selos, seals[..i], faults).stats
    {
      SealRunNext(start.selos, seals, faults, i);
      stats := SyncSeal(db, seals[i], i in faults, stats);
      i := i + 1;
    }
    assert seals[..i] == seals;
  }
}
