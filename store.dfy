/** The relational store the engine writes to, as plain values: each table
    is a map from primary key to row plus its AUTO_INCREMENT counter, and
    each SQL statement the engine issues is a function from the old store
    to the new one. Class Database holds the live tables and applies those
    statements in place. */
module Store {

  import opened Wrappers
  import Json

  /** A table: rows by primary key and the next AUTO_INCREMENT value. */
  datatype Table<R> = Table(rows: map<nat, R>, nextId: nat)

  /** Every id was handed out by the counter, which starts at 1. */
  ghost predicate TableValid<R>(t: Table<R>)
  {
    t.nextId >= 1 && forall id :: id in t.rows ==> 1 <= id < t.nextId
  }

  function EmptyTable<R>(): (t: Table<R>)
    ensures TableValid(t) && t.rows == map[]
  {
    Table(map[], 1)
  }

  /** INSERT: the row takes the next id (the value lastInsertId() returns). */
  function Insert<R>(t: Table<R>, row: R): (r: Table<R>)
    requires TableValid(t)
    ensures TableValid(r)
    ensures t.nextId !in t.rows
    ensures r.rows == t.rows[t.nextId := row] && r.nextId == t.nextId + 1
  {
    Table(t.rows[t.nextId := row], t.nextId + 1)
  }

  /** The lowest id in [lo, hi) whose row satisfies p: what
      `SELECT id ... WHERE <p> LIMIT 1` returns when the engine scans the
      primary key in order. */
  function FindFirst<R>(rows: map<nat, R>, p: R -> bool, lo: nat, hi: nat): (r: Option<nat>)
    decreases hi - lo
    ensures r.Some? ==> lo <= r.value < hi && r.value in rows && p(rows[r.value])
    ensures r.Some? ==> forall k :: lo <= k < r.value && k in rows ==> !p(rows[k])
    ensures r.None? ==> forall k :: lo <= k < hi && k in rows ==> !p(rows[k])
  {
    if lo >= hi then None
    else if lo in rows && p(rows[lo]) then Some(lo)
    else FindFirst(rows, p, lo + 1, hi)
  }

  /** SELECT id FROM <t> WHERE <p>: found exactly when some row matches. */
  function Find<R>(t: Table<R>, p: R -> bool): (r: Option<nat>)
    requires TableValid(t)
    ensures r.Some? ==> r.value in t.rows && p(t.rows[r.value])
    ensures r.None? <==> forall k :: k in t.rows ==> !p(t.rows[k])
  {
    FindFirst(t.rows, p, 1, t.nextId)
  }

  /** A row of `eventos`, every column the engine writes. */
  datatype EventRow = EventRow(
    externalId: int,
    nome: string,
    descricao: Option<string>,
    local: Option<string>,
    municipio: string,
    cep: Option<string>,
    latitude: Option<Json.Value>,
    longitude: Option<Json.Value>,
    telefone: Option<string>,
    email: Option<string>,
    site: Option<string>,
    acessibilidade: int,
    classificacaoEtaria: Option<string>,
    dataInicio: Option<string>,
    dataFim: Option<string>)

  /** The run counters the engine keeps and records in the ledger. */
  datatype Stats = Stats(total: nat, novos: nat, atualizados: nat, erros: nat)

  /** The ledger's status column. */
  datatype LogStatus = Iniciado | EmProgresso | Concluido | Erro

  /** A row of `sync_logs`; the counters are unset until the run is finalised. */
  datatype SyncLog = SyncLog(status: LogStatus, counters: Option<Stats>, mensagem: Option<string>)

  /** A row of `selos`. */
  datatype SealRow = SealRow(externalId: Option<int>, nome: string, descricao: Option<string>)

  /** The whole store: the tables and the event/language link table, whose
      rows are (evento_id, linguagem_id) pairs under a composite key. */
  datatype Db = Db(
    eventos: Table<EventRow>,
    linguagens: Table<string>,
    eventosLinguagens: set<(nat, nat)>,
    syncLogs: Table<SyncLog>,
    selos: Table<SealRow>)

  /** No two events share an external id. */
  ghost predicate UniqueExternalIds(rows: map<nat, EventRow>)
  {
    forall i, j :: i in rows && j in rows && rows[i].externalId == rows[j].externalId ==> i == j
  }

  /** No two languages share a name. */
  ghost predicate UniqueNames(rows: map<nat, string>)
  {
    forall i, j :: i in rows && j in rows && rows[i] == rows[j] ==> i == j
  }

  /** Every link row points at an existing event and language. */
  ghost predicate LinksResolve(db: Db)
  {
    forall link :: link in db.eventosLinguagens ==> link.0 in db.eventos.rows && link.1 in db.linguagens.rows
  }

  /** The integrity the engine maintains. */
  ghost predicate Valid(db: Db)
  {
    && TableValid(db.eventos)
    && TableValid(db.linguagens)
    && TableValid(db.syncLogs)
    && TableValid(db.selos)
    && UniqueExternalIds(db.eventos.rows)
    && UniqueNames(db.linguagens.rows)
    && LinksResolve(db)
  }

  function EmptyDb(): (db: Db)
    ensures Valid(db)
  {
    Db(EmptyTable(), EmptyTable(), {}, EmptyTable(), EmptyTable())
  }

  // ----- the statements -----

  /** SELECT id FROM eventos WHERE external_id = ? */
  function FindEvento(db: Db, externalId: int): Option<nat>
    requires TableValid(db.eventos)
  {
    Find(db.eventos, (r: EventRow) => r.externalId == externalId)
  }

  /** Some event row carries this external id. */
  ghost predicate HasEvento(db: Db, externalId: int)
  {
    exists id :: id in db.eventos.rows && db.eventos.rows[id].externalId == externalId
  }

  /** INSERT INTO eventos (...) VALUES (...) */
  function EventoInserted(db: Db, row: EventRow): Db
    requires TableValid(db.eventos)
  {
    db.(eventos := Insert(db.eventos, row))
  }

  /** UPDATE eventos SET <every column but external_id> WHERE id = ? */
  function EventoUpdated(db: Db, id: nat, row: EventRow): Db
  {
    if id in db.eventos.rows then
      var stored := db.eventos.rows[id];
      db.(eventos := db.eventos.(rows := db.eventos.rows[id := row.(externalId := stored.externalId)]))
    else db
  }

  /** DELETE FROM eventos_linguagens WHERE evento_id = ? */
  function LinksDeleted(db: Db, eventoId: nat): Db
  {
    db.(eventosLinguagens := set link | link in db.eventosLinguagens && link.0 != eventoId)
  }

  /** INSERT IGNORE INTO eventos_linguagens (evento_id, linguagem_id): a
      pair already present is ignored. */
  function LinkAdded(db: Db, eventoId: nat, linguagemId: nat): Db
  {
    db.(eventosLinguagens := db.eventosLinguagens + {(eventoId, linguagemId)})
  }

  /** SELECT id FROM linguagens WHERE nome = ? */
  function FindLinguagem(db: Db, nome: string): Option<nat>
    requires TableValid(db.linguagens)
  {
    Find(db.linguagens, (n: string) => n == nome)
  }

  /** INSERT INTO linguagens (nome) VALUES (?) */
  function LinguagemInserted(db: Db, nome: string): Db
    requires TableValid(db.linguagens)
  {
    db.(linguagens := Insert(db.linguagens, nome))
  }

  /** INSERT INTO sync_logs (status, started_at) VALUES ('iniciado', NOW()) */
  function SyncLogCreated(db: Db): Db
    requires TableValid(db.syncLogs)
  {
    db.(syncLogs := Insert(db.syncLogs, SyncLog(Iniciado, None, None)))
  }

  /** UPDATE sync_logs SET status = ? WHERE id = ? */
  function SyncLogStatusSet(db: Db, id: nat, status: LogStatus): Db
  {
    if id in db.syncLogs.rows then
      db.(syncLogs := db.syncLogs.(rows := db.syncLogs.rows[id := db.syncLogs.rows[id].(status := status)]))
    else db
  }

  /** The counters finalizeSyncLog writes: `$stats[...] ?? 0`. */
  function CountersOrZero(stats: Option<Stats>): Stats
  {
    stats.GetOr(Stats(0, 0, 0, 0))
  }

  /** UPDATE sync_logs SET status, counters, mensagem, finished_at WHERE id = ? */
  function SyncLogFinalized(db: Db, id: nat, status: LogStatus, stats: Option<Stats>, mensagem: Option<string>): Db
  {
    if id in db.syncLogs.rows then
      db.(syncLogs := db.syncLogs.(rows := db.syncLogs.rows[id := SyncLog(status, Some(CountersOrZero(stats)), mensagem)]))
    else db
  }

  /** The largest id below `hi` present in `rows`. */
  function LatestId<R>(rows: map<nat, R>, hi: nat): (r: Option<nat>)
    decreases hi
    ensures r.Some? ==> r.value < hi && r.value in rows
    ensures r.Some? ==> forall k :: r.value < k < hi ==> k !in rows
    ensures r.None? ==> forall k :: k < hi ==> k !in rows
  {
    if hi == 0 then None
    else if hi - 1 in rows then Some(hi - 1)
    else LatestId(rows, hi - 1)
  }

  /** SELECT * FROM sync_logs ORDER BY started_at DESC LIMIT 1: started_at
      is NOW() at insertion, so the latest run is the one with the highest id. */
  function LastSyncLog(db: Db): (r: Option<SyncLog>)
    requires TableValid(db.syncLogs)
    ensures r.None? <==> db.syncLogs.rows == map[]
    ensures r.Some? ==> exists id :: id in db.syncLogs.rows && db.syncLogs.rows[id] == r.value
                                && forall k :: k in db.syncLogs.rows ==> k <= id
  {
    match LatestId(db.syncLogs.rows, db.syncLogs.nextId)
    case Some(id) => Some(db.syncLogs.rows[id])
    case None => None
  }

  /** SELECT id FROM selos WHERE external_id = ? */
  function FindSeloByExternalId(t: Table<SealRow>, externalId: int): Option<nat>
    requires TableValid(t)
  {
    Find(t, (r: SealRow) => r.externalId == Some(externalId))
  }

  /** SELECT id FROM selos WHERE nome = ? */
  function FindSeloByNome(t: Table<SealRow>, nome: string): Option<nat>
    requires TableValid(t)
  {
    Find(t, (r: SealRow) => r.nome == nome)
  }

  /** UPDATE selos SET nome = ?, descricao = ? WHERE id = ? */
  function SeloUpdated(t: Table<SealRow>, id: nat, nome: string, descricao: Option<string>): Table<SealRow>
  {
    if id in t.rows then t.(rows := t.rows[id := t.rows[id].(nome := nome, descricao := descricao)])
    else t
  }

  /** The live store behind the PDO connection. */
  class Database {
    var eventos: Table<EventRow>
    var linguagens: Table<string>
    var eventosLinguagens: set<(nat, nat)>
    var syncLogs: Table<SyncLog>
    var selos: Table<SealRow>
    /** Every status the sync_logs statements have set, in order, with
        the id of the row each statement names. */
    ghost var statusWrites: seq<(nat, LogStatus)>

    function State(): Db
      reads this
    {
      Db(eventos, linguagens, eventosLinguagens, syncLogs, selos)
    }

    constructor (initial: Db)
      ensures State() == initial && statusWrites == []
    {
      eventos := initial.eventos;
      linguagens := initial.linguagens;
      eventosLinguagens := initial.eventosLinguagens;
      syncLogs := initial.syncLogs;
      selos := initial.selos;
      statusWrites := [];
    }

    method InsertEvento(row: EventRow) returns (id: nat)
      requires TableValid(eventos)
      modifies this`eventos
      ensures id == old(eventos.nextId)
      ensures State() == EventoInserted(old(State()), row)
    {
      id := eventos.nextId;
      eventos := Insert(eventos, row);
    }

    method UpdateEvento(id: nat, row: EventRow)
      modifies this`eventos
      ensures State() == EventoUpdated(old(State()), id, row)
    {
      if id in eventos.rows {
        eventos := eventos.(rows := eventos.rows[id := row.(externalId := eventos.rows[id].externalId)]);
      }
    }

    method DeleteLinks(eventoId: nat)
      modifies this`eventosLinguagens
      ensures State() == LinksDeleted(old(State()), eventoId)
    {
      eventosLinguagens := set link | link in eventosLinguagens && link.0 != eventoId;
    }

    method InsertIgnoreLink(eventoId: nat, linguagemId: nat)
      modifies this`eventosLinguagens
      ensures State() == LinkAdded(old(State()), eventoId, linguagemId)
    {
      eventosLinguagens := eventosLinguagens + {(eventoId, linguagemId)};
    }

    method InsertLinguagem(nome: string) returns (id: nat)
      requires TableValid(linguagens)
      modifies this`linguagens
      ensures id == old(linguagens.nextId)
      ensures State() == LinguagemInserted(old(State()), nome)
    {
      id := linguagens.nextId;
      linguagens := Insert(linguagens, nome);
    }

    method InsertSyncLog() returns (id: nat)
      requires TableValid(syncLogs)
      modifies this`syncLogs, this`statusWrites
      ensures id == old(syncLogs.nextId)
      ensures State() == SyncLogCreated(old(State()))
      ensures statusWrites == old(statusWrites) + [(id, Iniciado)]
    {
      id := syncLogs.nextId;
      syncLogs := Insert(syncLogs, SyncLog(Iniciado, None, None));
      statusWrites := statusWrites + [(id, Iniciado)];
    }

    method SetSyncLogStatus(id: nat, status: LogStatus)
      modifies this`syncLogs, this`statusWrites
      ensures State() == SyncLogStatusSet(old(State()), id, status)
      ensures statusWrites == old(statusWrites) + [(id, status)]
    {
      if id in syncLogs.rows {
        syncLogs := syncLogs.(rows := syncLogs.rows[id := syncLogs.rows[id].(status := status)]);
      }
      statusWrites := statusWrites + [(id, status)];
    }

    method FinalizeSyncLog(id: nat, status: LogStatus, stats: Option<Stats>, mensagem: Option<string>)
      modifies this`syncLogs, this`statusWrites
      ensures State() == SyncLogFinalized(old(State()), id, status, stats, mensagem)
      ensures statusWrites == old(statusWrites) + [(id, status)]
    {
      if id in syncLogs.rows {
        syncLogs := syncLogs.(rows := syncLogs.rows[id := SyncLog(status, Some(CountersOrZero(stats)), mensagem)]);
      }
      statusWrites := statusWrites + [(id, status)];
    }

    method InsertSelo(row: SealRow) returns (id: nat)
      requires TableValid(selos)
      modifies this`selos
      ensures id == old(selos.nextId)
      ensures State() == old(State()).(selos := Insert(old(selos), row))
    {
      id := selos.nextId;
      selos := Insert(selos, row);
    }

    method UpdateSelo(id: nat, nome: string, descricao: Option<string>)
      modifies this`selos
      ensures State() == old(State()).(selos := SeloUpdated(old(selos), id, nome, descricao))
    {
      selos := SeloUpdated(selos, id, nome, descricao);
    }
  }
}
