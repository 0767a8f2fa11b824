/** SyncService: one synchronisation run. It opens a ledger row, marks it
    in progress, fetches every event, upserts them one at a time counting
    the outcomes, closes the ledger row and clears the cached listings.
    Each method performs its statements on the live store and is proved to
    leave it in the state the functions of SyncModel describe. */
module SyncEngine {

  import opened Wrappers
  import opened Store
  import opened EventNormalizer
  import opened SyncModel
  import Text
  import Cache
  import ApiClient

  /** Where an exception that the per-event try/catch does not see is
      raised: the UPDATE of the ledger to 'em_progresso', or the UPDATE that
      closes it as 'concluido'. Either is caught by the outer handler,
      which closes the ledger as 'erro' and rethrows. HandlerFails is the
      closing UPDATE throwing and then the handler's own 'erro' UPDATE
      throwing too (a connection lost after 'em_progresso'): the row is
      left 'em_progresso' and the handler's exception propagates. */
  datatype LedgerFault =
    | NoFault
    | FailsAtStart(message: string)
    | FailsAtFinish(message: string)
    | HandlerFails(message: string)

  /** The cache entries left after clearing the prefixes "eventos:",
      "stats:" and "linguagens:" in turn. */
  function Invalidated(entries: map<string, Cache.Entry>): (r: map<string, Cache.Entry>)
    ensures forall k :: k in r <==> k in entries && !Text.IsPrefix("eventos:", k)
                                    && !Text.IsPrefix("stats:", k) && !Text.IsPrefix("linguagens:", k)
    ensures forall k :: k in r ==> r[k] == entries[k]
  {
    Cache.WithoutPrefix(Cache.WithoutPrefix(Cache.WithoutPrefix(entries, "eventos:"), "stats:"), "linguagens:")
  }

  /** What a run leaves: the store, what syncEvents returns or throws,
      the ledger row it used, and whether it clears the cache. */
  datatype RunOutcome = RunOutcome(db: Db, result: Result<Stats>, logId: nat, clearsCache: bool)

  /** syncEvents over the fetched events. */
  function SyncRun(db: Db, events: seq<ApiEvent>, faults: set<nat>, fault: LedgerFault): (out: RunOutcome)
    requires Valid(db)
    ensures out.logId == db.syncLogs.nextId
    ensures out.result.Ok? <==> fault.NoFault?
    ensures out.clearsCache <==> fault.NoFault?
    ensures !fault.NoFault? ==> out.result == Err(fault.message)
  {
    var logId := db.syncLogs.nextId;
    var created := SyncLogCreated(db);
    if fault.FailsAtStart? then
      RunOutcome(SyncLogFinalized(created, logId, Erro, None, Some(fault.message)), Err(fault.message), logId, false)
    else
      var running := SyncLogStatusSet(created, logId, EmProgresso);
      LedgerWritesValid(db, logId);
      var t := ProcessAll(running, events, faults);
      var stats := Stats(|events|, t.novos, t.atualizados, t.erros);
      if fault.FailsAtFinish? then
        RunOutcome(SyncLogFinalized(t.db, logId, Erro, None, Some(fault.message)), Err(fault.message), logId, false)
      else if fault.HandlerFails? then
        RunOutcome(t.db, Err(fault.message), logId, false)
      else
        RunOutcome(SyncLogFinalized(t.db, logId, Concluido, Some(stats), None), Ok(stats), logId, true)
  }

  /** The ledger statements keep the store's integrity. */
  lemma LedgerWritesValid(db: Db, logId: nat)
    requires Valid(db)
    ensures Valid(SyncLogCreated(db))
    ensures Valid(SyncLogStatusSet(SyncLogCreated(db), logId, EmProgresso))
    ensures forall s, st, m :: Valid(SyncLogFinalized(db, logId, s, st, m))
  {
  }

  /** The ledger row of a run, as syncEvents leaves it: a fault-free run
      closes it as 'concluido' with its counters (total = number of fetched
      events, the other three within it) and returns them; a run that
      throws closes it as 'erro' with zero counters and the message, and
      rethrows, unless the handler's UPDATE throws as well, which leaves it
      'em_progresso' without counters. Exactly one ledger row is added, the
      others are untouched, and the cache is cleared only on success. */
  lemma {:induction false} RunLedger(db: Db, events: seq<ApiEvent>, faults: set<nat>, fault: LedgerFault)
    requires Valid(db)
    ensures var out := SyncRun(db, events, faults, fault);
      && Valid(out.db)
      && out.logId == db.syncLogs.nextId && out.logId !in db.syncLogs.rows
      && out.db.syncLogs.nextId == db.syncLogs.nextId + 1
      && out.db.syncLogs.rows.Keys == db.syncLogs.rows.Keys + {out.logId}
      && (forall id :: id in db.syncLogs.rows ==> out.db.syncLogs.rows[id] == db.syncLogs.rows[id])
      && out.db.selos == db.selos
      && (fault.NoFault? ==>
            && out.result.Ok? && out.clearsCache
            && out.db.syncLogs.rows[out.logId] == SyncLog(Concluido, Some(out.result.value), None)
            && out.result.value.total == |events|
            && out.result.value.novos + out.result.value.atualizados + out.result.value.erros <= |events|)
      && (!fault.NoFault? ==> out.result == Err(fault.message) && !out.clearsCache)
      && ((fault.FailsAtStart? || fault.FailsAtFinish?) ==>
            out.db.syncLogs.rows[out.logId] == SyncLog(Erro, Some(Stats(0, 0, 0, 0)), Some(fault.message)))
      && (fault.HandlerFails? ==> out.db.syncLogs.rows[out.logId] == SyncLog(EmProgresso, None, None))
  {
    var logId := db.syncLogs.nextId;
    var created := SyncLogCreated(db);
    LedgerWritesValid(db, logId);
    if fault.FailsAtStart? {
      LedgerClosed(db, created, Erro, None, Some(fault.message));
    } else {
      var running := SyncLogStatusSet(created, logId, EmProgresso);
      ProcessAllCounters(running, events, faults);
      var t := ProcessAll(running, events, faults);
      var stats := Stats(|events|, t.novos, t.atualizados, t.erros);
      if fault.FailsAtFinish? {
        LedgerClosed(db, t.db, Erro, None, Some(fault.message));
      } else if fault.HandlerFails? {
        assert t.db.syncLogs == running.syncLogs;
      } else {
        LedgerClosed(db, t.db, Concluido, Some(stats), None);
      }
    }
  }

  /** Closing the ledger row a run opened on `db`, from a store `x` that
      holds that row and agrees with `db` on every other ledger row. */
  lemma LedgerClosed(db: Db, x: Db, status: LogStatus, stats: Option<Stats>, mensagem: Option<string>)
    requires Valid(db) && Valid(x)
    requires x.syncLogs.nextId == db.syncLogs.nextId + 1
    requires db.syncLogs.nextId in x.syncLogs.rows
    requires x.syncLogs.rows.Keys == db.syncLogs.rows.Keys + {db.syncLogs.nextId}
    requires forall id :: id in db.syncLogs.rows ==> x.syncLogs.rows[id] == db.syncLogs.rows[id]
    ensures var logId := db.syncLogs.nextId;
      var out := SyncLogFinalized(x, logId, status, stats, mensagem);
      && Valid(out) && logId !in db.syncLogs.rows
      && out.syncLogs.nextId == db.syncLogs.nextId + 1
      && out.syncLogs.rows.Keys == db.syncLogs.rows.Keys + {logId}
      && (forall id :: id in db.syncLogs.rows ==> out.syncLogs.rows[id] == db.syncLogs.rows[id])
      && out.syncLogs.rows[logId] == SyncLog(status, Some(CountersOrZero(stats)), mensagem)
      && out.selos == x.selos
  {
    LedgerWritesValid(x, db.syncLogs.nextId);
  }

  /** api/sync.php refuses to start a run while the latest ledger row is
      still 'em_progresso'. */
  predicate SyncRefused(db: Db)
    requires TableValid(db.syncLogs)
  {
    var last := LastSyncLog(db);
    last.Some? && last.value.status == EmProgresso
  }

  /** The run just finished is the latest ledger row. It is left
      'em_progresso', so that api/sync.php refuses every later run, exactly
      when the handler's own UPDATE throws; otherwise it is 'concluido' or
      'erro' and a new run is accepted. */
  lemma RunReleasesLedger(db: Db, events: seq<ApiEvent>, faults: set<nat>, fault: LedgerFault)
    requires Valid(db)
    ensures var out := SyncRun(db, events, faults, fault);
      && Valid(out.db) && out.logId in out.db.syncLogs.rows
      && LastSyncLog(out.db) == Some(out.db.syncLogs.rows[out.logId])
      && (!fault.HandlerFails? ==> LastSyncLog(out.db).value.status in {Concluido, Erro})
      && (SyncRefused(out.db) <==> fault.HandlerFails?)
  {
    RunLedger(db, events, faults, fault);
    var out := SyncRun(db, events, faults, fault);
    var id :| id in out.db.syncLogs.rows && out.db.syncLogs.rows[id] == LastSyncLog(out.db).value
              && forall k :: k in out.db.syncLogs.rows ==> k <= id;
    assert id == out.logId;
  }

  /** The ledger statuses a run writes, in order. */
  function LedgerTrace(fault: LedgerFault): seq<LogStatus>
  {
    match fault
    case FailsAtStart(_) => [Iniciado, Erro]
    case FailsAtFinish(_) => [Iniciado, EmProgresso, Erro]
    case HandlerFails(_) => [Iniciado, EmProgresso]
    case NoFault => [Iniciado, EmProgresso, Concluido]
  }

  /** The ledger's state machine: iniciado, then em_progresso unless the
      very first update throws, then concluido or erro, and nothing after;
      a trace may stop at em_progresso when the closing statement never
      reaches the store. */
  predicate LegalTrace(trace: seq<LogStatus>)
  {
    && |trace| >= 2
    && trace[0] == Iniciado
    && trace[|trace| - 1] != Iniciado
    && (forall k :: 0 < k < |trace| - 1 ==> trace[k] == EmProgresso)
  }

  /** A trace that closes the ledger row. */
  predicate Closed(trace: seq<LogStatus>)
  {
    |trace| > 0 && trace[|trace| - 1] in {Concluido, Erro}
  }

  lemma LedgerTraceLegal(fault: LedgerFault)
    ensures LegalTrace(LedgerTrace(fault))
    ensures Closed(LedgerTrace(fault)) <==> !fault.HandlerFails?
    ensures LedgerTrace(fault)[|LedgerTrace(fault)| - 1] == Concluido <==> fault.NoFault?
  {
  }

  /** The ledger writes of one run: each status of the trace, on row `id`. */
  function Writes(id: nat, trace: seq<LogStatus>): seq<(nat, LogStatus)>
  {
    seq(|trace|, k requires 0 <= k < |trace| => (id, trace[k]))
  }

  /** The writes of a run, one statement after the other. */
  lemma WritesOfRun<T>(before: seq<T>, a: T, b: T, c: T, id: nat, fault: LedgerFault)
    ensures fault.FailsAtStart? ==> Writes(id, LedgerTrace(fault)) == [(id, Iniciado), (id, Erro)]
    ensures fault.HandlerFails? ==> Writes(id, LedgerTrace(fault)) == [(id, Iniciado), (id, EmProgresso)]
    ensures (fault.NoFault? || fault.FailsAtFinish?) ==>
      Writes(id, LedgerTrace(fault)) == [(id, Iniciado), (id, EmProgresso), (id, if fault.NoFault? then Concluido else Erro)]
    ensures before + [a] + [b] == before + [a, b]
    ensures before + [a] + [b] + [c] == before + [a, b, c]
  {
  }

  class SyncService {
    const db: Database
    const cache: Cache.RedisCache
    const api: ApiClient.MapaCulturalApi
    var syncLogId: nat

    constructor (db: Database, cache: Cache.RedisCache, api: ApiClient.MapaCulturalApi)
      ensures this.db == db && this.cache == cache && this.api == api
    {
      this.db := db;
      this.cache := cache;
      this.api := api;
    }

    /** createSyncLog: a new ledger row in 'iniciado'; returns its id. */
    method CreateSyncLog() returns (id: nat)
      requires TableValid(db.syncLogs)
      modifies db`syncLogs, db`statusWrites
      ensures id == old(db.syncLogs.nextId)
      ensures db.State() == SyncLogCreated(old(db.State()))
      ensures db.statusWrites == old(db.statusWrites) + [(id, Iniciado)]
    {
      id := db.InsertSyncLog();
    }

    /** updateSyncLog: the status of this run's ledger row. */
    method UpdateSyncLog(status: LogStatus)
      modifies db`syncLogs, db`statusWrites
      ensures db.State() == SyncLogStatusSet(old(db.State()), syncLogId, status)
      ensures db.statusWrites == old(db.statusWrites) + [(syncLogId, status)]
    {
      db.SetSyncLogStatus(syncLogId, status);
    }

    /** finalizeSyncLog: status, counters (zero where absent) and message. */
    method FinalizeSyncLog(status: LogStatus, stats: Option<Stats>, mensagem: Option<string>)
      modifies db`syncLogs, db`statusWrites
      ensures db.State() == SyncLogFinalized(old(db.State()), syncLogId, status, stats, mensagem)
      ensures db.statusWrites == old(db.statusWrites) + [(syncLogId, status)]
    {
      db.FinalizeSyncLog(syncLogId, status, stats, mensagem);
    }

    /** invalidateCache: with a connected cache, clear the three prefixes. */
    method InvalidateCache()
      modifies cache`entries
      ensures cache.entries == if cache.connected then Invalidated(old(cache.entries)) else old(cache.entries)
    {
      if cache.IsConnected() {
        var _ := cache.DeletePattern("eventos:");
        var _ := cache.DeletePattern("stats:");
        var _ := cache.DeletePattern("linguagens:");
      }
    }

    /** getOrCreateLanguage. */
    method GetOrCreateLanguage(nome: string) returns (id: nat)
      requires TableValid(db.linguagens)
      modifies db`linguagens
      ensures Step(db.State(), id) == SyncModel.GetOrCreateLanguage(old(db.State()), nome)
    {
      var found := FindLinguagem(db.State(), nome);
      if found.Some? {
        return found.value;
      }
      id := db.InsertLinguagem(nome);
    }

    /** One name of syncEventLanguages's foreach: find or create the
        language, then INSERT IGNORE the link (`if ($linguagemId)` always
        holds, since ids start at 1). */
    method LinkLanguage(eventoId: nat, nome: string)
      requires TableValid(db.linguagens)
      modifies db`linguagens, db`eventosLinguagens
      ensures var s := SyncModel.GetOrCreateLanguage(old(db.State()), nome);
        db.State() == LinkAdded(s.db, eventoId, s.value)
    {
      var linguagemId := GetOrCreateLanguage(nome);
      if linguagemId != 0 {
        db.InsertIgnoreLink(eventoId, linguagemId);
      }
    }

    /** syncEventLanguages: delete the event's links, then find or create
        each language and INSERT IGNORE its link. */
    method SyncEventLanguages(eventoId: nat, linguagens: seq<string>)
      requires TableValid(db.linguagens)
      modifies db`linguagens, db`eventosLinguagens
      ensures db.State() == SyncModel.SyncEventLanguages(old(db.State()), eventoId, linguagens)
    {
      db.DeleteLinks(eventoId);
      ghost var start := db.State();
      var i := 0;
      while i < |linguagens|
        invariant 0 <= i <= |linguagens|
        invariant TableValid(db.linguagens)
        invariant db.State() == AddLanguages(start, eventoId, linguagens[..i])
      {
        AddLanguagesNext(start, eventoId, linguagens, i);
        LinkLanguage(eventoId, linguagens[i]);
        i := i + 1;
      }
      assert linguagens[..i] == linguagens;
    }

    /** processEvent: normalise, skip, or update/insert by external id,
        then replace the language links when the event names any. */
    method ProcessEvent(apiEvent: ApiEvent) returns (resultado: Resultado)
      requires Valid(db.State())
      modifies db`eventos, db`linguagens, db`eventosLinguagens
      ensures Step(db.State(), resultado) == SyncModel.ProcessEvent(old(db.State()), apiEvent)
    {
      var externalId := apiEvent.id;
      var data := ExtractEventData(apiEvent);
      if Skipped(data) {
        return Ignorado;
      }
      var existing := FindEvento(db.State(), externalId);
      var eventoId: nat;
      if existing.Some? {
        db.UpdateEvento(existing.value, data);
        eventoId := existing.value;
        resultado := Atualizado;
      } else {
        eventoId := db.InsertEvento(data);
        resultado := Novo;
      }
      if |apiEvent.linguagem| > 0 {
        SyncEventLanguages(eventoId, apiEvent.linguagem);
      }
    }

    /** One turn of the foreach: the event is processed in its try, or it
        throws and counts as an error. */
    method CountOne(e: ApiEvent, faulted: bool, novos: nat, atualizados: nat, erros: nat)
      returns (novos': nat, atualizados': nat, erros': nat)
      requires Valid(db.State())
      modifies db`eventos, db`linguagens, db`eventosLinguagens
      ensures Tally(db.State(), novos', atualizados', erros')
                == if faulted then Tally(old(db.State()), novos, atualizados, erros + 1)
                   else Count(Tally(old(db.State()), novos, atualizados, erros), SyncModel.ProcessEvent(old(db.State()), e), false)
    {
      novos', atualizados', erros' := novos, atualizados, erros;
      if faulted {
        erros' := erros + 1;
      } else {
        var resultado := ProcessEvent(e);
        if resultado == Novo {
          novos' := novos + 1;
        } else if resultado == Atualizado {
          atualizados' := atualizados + 1;
        }
      }
    }

    /** The foreach of syncEvents: each event is processed in its own
        try; one that throws counts as an error and the loop goes on. */
    method ProcessEvents(events: seq<ApiEvent>, faults: set<nat>) returns (novos: nat, atualizados: nat, erros: nat)
      requires Valid(db.State())
      modifies db`eventos, db`linguagens, db`eventosLinguagens
      ensures Tally(db.State(), novos, atualizados, erros) == ProcessAll(old(db.State()), events, faults)
    {
      ghost var start := db.State();
      novos, atualizados, erros := 0, 0, 0;
      var i := 0;
      while i < |events|
        invariant 0 <= i <= |events|
        invariant Valid(db.State())
        invariant Tally(db.State(), novos, atualizados, erros) == ProcessAll(start, events[..i], faults)
      {
        ProcessAllNext(start, events, faults, i);
        novos, atualizados, erros := CountOne(events[i], i in faults, novos, atualizados, erros);
        i := i + 1;
      }
      assert events[..i] == events;
    }

    /** syncEvents. `pages` are the remote answers, `faults` the indices of
        the fetched events whose processing throws, `fault` the ledger
        statement that throws, if any. */
    method SyncEvents(pages: seq<ApiClient.PageResult<ApiEvent>>, faults: set<nat>, fault: LedgerFault)
        returns (r: Result<Stats>)
      requires Valid(db.State())
      modifies this, db, cache`entries
      ensures var out := SyncRun(old(db.State()), ApiClient.Fetched(pages), faults, fault);
        && db.State() == out.db && r == out.result && syncLogId == out.logId
        && cache.entries == (if out.clearsCache && cache.connected then Invalidated(old(cache.entries)) else old(cache.entries))
      ensures db.statusWrites == old(db.statusWrites) + Writes(syncLogId, LedgerTrace(fault))
    {
      ghost var start := db.State();
      ghost var before := db.statusWrites;
      LedgerWritesValid(start, start.syncLogs.nextId);
      ghost var id := start.syncLogs.nextId;
      WritesOfRun(before, (id, Iniciado), (id, if fault.FailsAtStart? then Erro else EmProgresso),
        (id, if fault.NoFault? then Concluido else Erro), id, fault);
      syncLogId := CreateSyncLog();
      if fault.FailsAtStart? {
        FinalizeSyncLog(Erro, None, Some(fault.message));
        return Err(fault.message);
      }
      UpdateSyncLog(EmProgresso);
      var events, _, _ := api.GetAllEvents(pages);
      var novos, atualizados, erros := ProcessEvents(events, faults);
      var stats := Stats(|events|, novos, atualizados, erros);
      r := CloseRun(stats, fault);
    }

    /** The end of syncEvents: the ledger row is closed as 'concluido' with
        the counters and the cache cleared, or, when that UPDATE throws, the
        outer handler closes it as 'erro' and rethrows; when the handler's
        UPDATE throws too, nothing reaches the store and that exception
        propagates. */
    method CloseRun(stats: Stats, fault: LedgerFault) returns (r: Result<Stats>)
      requires !fault.FailsAtStart?
      modifies db, cache`entries
      ensures fault.FailsAtFinish? ==>
                && db.State() == SyncLogFinalized(old(db.State()), syncLogId, Erro, None, Some(fault.message))
                && r == Err(fault.message) && cache.entries == old(cache.entries)
      ensures fault.NoFault? ==>
                && db.State() == SyncLogFinalized(old(db.State()), syncLogId, Concluido, Some(stats), None)
                && r == Ok(stats)
                && cache.entries == if cache.connected then Invalidated(old(cache.entries)) else old(cache.entries)
      ensures fault.HandlerFails? ==>
                && db.State() == old(db.State()) && db.statusWrites == old(db.statusWrites)
                && r == Err(fault.message) && cache.entries == old(cache.entries)
      ensures !fault.HandlerFails? ==>
                db.statusWrites == old(db.statusWrites) + [(syncLogId, if fault.NoFault? then Concluido else Erro)]
    {
      if fault.HandlerFails? {
        return Err(fault.message);
      }
      if fault.FailsAtFinish? {
        FinalizeSyncLog(Erro, None, Some(fault.message));
        return Err(fault.message);
      }
      FinalizeSyncLog(Concluido, Some(stats), None);
      InvalidateCache();
      r := Ok(stats);
    }

    /** getLastSyncLog. */
    method GetLastSyncLog() returns (log: Option<SyncLog>)
      requires TableValid(db.syncLogs)
      ensures log.None? <==> db.syncLogs.rows == map[]
      ensures log.Some? ==> exists id :: id in db.syncLogs.rows && db.syncLogs.rows[id] == log.value
                                  && forall k :: k in db.syncLogs.rows ==> k <= id
    {
      log := LastSyncLog(db.State());
    }
  }
}
