/** The effect of SyncService's statements on the store, as functions of
    the old store: getOrCreateLanguage, syncEventLanguages, processEvent
    and the per-event loop of syncEvents. Class SyncService (module
    SyncEngine) performs the same statements in place and is proved to
    end in the states these functions describe. */
module SyncModel {

  import opened Wrappers
  import opened Store
  import opened EventNormalizer

  /** processEvent's answer. */
  datatype Resultado = Novo | Atualizado | Ignorado

  /** A store after some statements, with the value they returned. */
  datatype Step<T> = Step(db: Db, value: T)

  /** Some language row carries this name. */
  ghost predicate HasLanguage(db: Db, nome: string)
  {
    exists k :: k in db.linguagens.rows && db.linguagens.rows[k] == nome
  }

  /** getOrCreateLanguage: the id of the row with this name, inserting the
      row when there is none. */
  function GetOrCreateLanguage(db: Db, nome: string): (r: Step<nat>)
    requires TableValid(db.linguagens)
    ensures TableValid(r.db.linguagens)
    ensures r.value >= 1
    ensures r.value in r.db.linguagens.rows && r.db.linguagens.rows[r.value] == nome
    ensures HasLanguage(db, nome) ==> r.db == db
    ensures !HasLanguage(db, nome) ==> r.db == LinguagemInserted(db, nome) && r.value == db.linguagens.nextId
  {
    match FindLinguagem(db, nome)
    case Some(id) => Step(db, id)
    case None => Step(LinguagemInserted(db, nome), db.linguagens.nextId)
  }

  /** Sequential calls keep language names unique. */
  lemma GetOrCreateKeepsNamesUnique(db: Db, nome: string)
    requires TableValid(db.linguagens) && UniqueNames(db.linguagens.rows)
    ensures UniqueNames(GetOrCreateLanguage(db, nome).db.linguagens.rows)
  {
  }

  /** A second call for the same name creates nothing and returns the same id. */
  lemma GetOrCreateTwice(db: Db, nome: string)
    requires TableValid(db.linguagens) && UniqueNames(db.linguagens.rows)
    ensures var first := GetOrCreateLanguage(db, nome);
            var second := GetOrCreateLanguage(first.db, nome);
            second.db == first.db && second.value == first.value
  {
    var first := GetOrCreateLanguage(db, nome);
    assert HasLanguage(first.db, nome);
  }

  /** The foreach of syncEventLanguages: for each name in order, find or
      create the language, then INSERT IGNORE the link. The `if
      ($linguagemId)` guard always holds, since ids start at 1. */
  function AddLanguages(db: Db, eventoId: nat, names: seq<string>): (r: Db)
    requires TableValid(db.linguagens)
    ensures TableValid(r.linguagens)
    decreases |names|
  {
    if names == [] then db
    else
      var prev := AddLanguages(db, eventoId, names[..|names| - 1]);
      var s := GetOrCreateLanguage(prev, names[|names| - 1]);
      LinkAdded(s.db, eventoId, s.value)
  }

  /** One more name of the foreach, unfolded. */
  lemma AddLanguagesNext(db: Db, eventoId: nat, names: seq<string>, i: nat)
    requires TableValid(db.linguagens) && i < |names|
    ensures var prev := AddLanguages(db, eventoId, names[..i]);
      var s := GetOrCreateLanguage(prev, names[i]);
      AddLanguages(db, eventoId, names[..i + 1]) == LinkAdded(s.db, eventoId, s.value)
  {
    assert names[..i + 1][..i] == names[..i];
  }

  /** syncEventLanguages: delete the event's links, then add one per name. */
  function SyncEventLanguages(db: Db, eventoId: nat, names: seq<string>): Db
    requires TableValid(db.linguagens)
  {
    AddLanguages(LinksDeleted(db, eventoId), eventoId, names)
  }

  /** The language row `l` carries one of `names`. */
  ghost predicate NamedIn(rows: map<nat, string>, l: nat, names: seq<string>)
  {
    l in rows && rows[l] in names
  }

  /** One name of the foreach: the other tables are untouched, the old
      language rows are kept, a new row can only carry this name, names
      stay unique, and exactly the link to the name's row is added. */
  lemma AddLanguageStep(prev: Db, ev: nat, n: string)
    requires TableValid(prev.linguagens) && UniqueNames(prev.linguagens.rows)
    ensures var s := GetOrCreateLanguage(prev, n);
      var r := LinkAdded(s.db, ev, s.value);
      && r.eventos == prev.eventos && r.syncLogs == prev.syncLogs && r.selos == prev.selos
      && UniqueNames(r.linguagens.rows)
      && (forall k :: k in prev.linguagens.rows ==> k in r.linguagens.rows && r.linguagens.rows[k] == prev.linguagens.rows[k])
      && (forall k :: k in r.linguagens.rows && k !in prev.linguagens.rows ==> r.linguagens.rows[k] == n)
      && s.value in r.linguagens.rows && r.linguagens.rows[s.value] == n
      && r.eventosLinguagens == prev.eventosLinguagens + {(ev, s.value)}
  {
    GetOrCreateKeepsNamesUnique(prev, n);
  }

  /** Adding the languages touches no other table, keeps the old language
      rows, adds rows only for these names, keeps names unique and leaves
      other events' links alone. */
  lemma {:induction false} AddLanguagesFrame(db: Db, ev: nat, names: seq<string>)
    requires TableValid(db.linguagens) && UniqueNames(db.linguagens.rows)
    ensures var r := AddLanguages(db, ev, names);
      && r.eventos == db.eventos && r.syncLogs == db.syncLogs && r.selos == db.selos
      && UniqueNames(r.linguagens.rows)
      && (forall k :: k in db.linguagens.rows ==> k in r.linguagens.rows && r.linguagens.rows[k] == db.linguagens.rows[k])
      && (forall k :: k in r.linguagens.rows && k !in db.linguagens.rows ==> r.linguagens.rows[k] in names)
      && (forall link: (nat, nat) :: link.0 != ev ==> (link in r.eventosLinguagens <==> link in db.eventosLinguagens))
    decreases |names|
  {
    if names != [] {
      var init := names[..|names| - 1];
      AddLanguagesFrame(db, ev, init);
      AddLanguageStep(AddLanguages(db, ev, init), ev, names[|names| - 1]);
      assert forall m :: m in init ==> m in names;
    }
  }

  /** After adding the languages every name has a row. */
  lemma {:induction false} AddLanguagesNamed(db: Db, ev: nat, names: seq<string>)
    requires TableValid(db.linguagens) && UniqueNames(db.linguagens.rows)
    ensures forall k :: 0 <= k < |names| ==> HasLanguage(AddLanguages(db, ev, names), names[k])
    decreases |names|
  {
    if names != [] {
      var init := names[..|names| - 1];
      AddLanguagesNamed(db, ev, init);
      AddLanguagesFrame(db, ev, init);
      var prev := AddLanguages(db, ev, init);
      var s := GetOrCreateLanguage(prev, names[|names| - 1]);
      AddLanguageStep(prev, ev, names[|names| - 1]);
      var r := AddLanguages(db, ev, names);
      assert r == LinkAdded(s.db, ev, s.value);
      forall k | 0 <= k < |names|
        ensures HasLanguage(r, names[k])
      {
        if k < |names| - 1 {
          assert names[k] == init[k];
          assert HasLanguage(prev, init[k]);
          var j :| j in prev.linguagens.rows && prev.linguagens.rows[j] == init[k];
          assert j in r.linguagens.rows && r.linguagens.rows[j] == names[k];
        } else {
          assert r.linguagens.rows[s.value] == names[k];
        }
      }
    }
  }

  /** After adding the languages the event's links are the old ones plus
      exactly the ids of rows carrying these names. */
  lemma {:induction false} AddLanguagesLinks(db: Db, ev: nat, names: seq<string>)
    requires TableValid(db.linguagens) && UniqueNames(db.linguagens.rows)
    ensures var r := AddLanguages(db, ev, names);
      forall l: nat :: (ev, l) in r.eventosLinguagens <==>
                        (ev, l) in db.eventosLinguagens || NamedIn(r.linguagens.rows, l, names)
    decreases |names|
  {
    if names != [] {
      var init := names[..|names| - 1];
      var n := names[|names| - 1];
      AddLanguagesLinks(db, ev, init);
      AddLanguagesFrame(db, ev, init);
      var prev := AddLanguages(db, ev, init);
      var s := GetOrCreateLanguage(prev, n);
      AddLanguageStep(prev, ev, n);
      var r := AddLanguages(db, ev, names);
      assert r == LinkAdded(s.db, ev, s.value);
      assert names == init + [n];
      forall l: nat
        ensures (ev, l) in r.eventosLinguagens <==>
                  (ev, l) in db.eventosLinguagens || NamedIn(r.linguagens.rows, l, names)
      {
        LinkStepAt(db, prev, r, ev, init, n, s.value, l);
      }
    }
  }

  /** The induction step of AddLanguagesLinks for one language id `l`:
      `prev` is the store after `init`, `r` after one more name `n` whose
      row is `v`. */
  lemma LinkStepAt(db: Db, prev: Db, r: Db, ev: nat, init: seq<string>, n: string, v: nat, l: nat)
    requires (ev, l) in prev.eventosLinguagens <==>
               (ev, l) in db.eventosLinguagens || NamedIn(prev.linguagens.rows, l, init)
    requires forall k :: k in db.linguagens.rows ==> k in prev.linguagens.rows && prev.linguagens.rows[k] == db.linguagens.rows[k]
    requires forall k :: k in prev.linguagens.rows ==> k in r.linguagens.rows && r.linguagens.rows[k] == prev.linguagens.rows[k]
    requires forall k :: k in r.linguagens.rows && k !in prev.linguagens.rows ==> r.linguagens.rows[k] == n
    requires v in r.linguagens.rows && r.linguagens.rows[v] == n
    requires UniqueNames(r.linguagens.rows)
    requires r.eventosLinguagens == prev.eventosLinguagens + {(ev, v)}
    ensures (ev, l) in r.eventosLinguagens <==>
              (ev, l) in db.eventosLinguagens || NamedIn(r.linguagens.rows, l, init + [n])
  {
    var names := init + [n];
    if NamedIn(r.linguagens.rows, l, names) && (ev, l) !in db.eventosLinguagens && l != v {
      var name := r.linguagens.rows[l];
      assert name != n;
      assert name in init;
      assert l in prev.linguagens.rows;
      assert NamedIn(prev.linguagens.rows, l, init);
    }
    if (ev, l) in prev.eventosLinguagens && (ev, l) !in db.eventosLinguagens {
      assert NamedIn(prev.linguagens.rows, l, init);
      assert NamedIn(r.linguagens.rows, l, names);
    }
  }

  /** What adding the languages does, name by name: every other table is
      untouched, the language table only grows and only by rows for these
      names, names stay unique, every name ends up with a row, and the
      event's links become the old ones plus exactly the ids of these names. */
  lemma AddLanguagesEffect(db: Db, ev: nat, names: seq<string>)
    requires TableValid(db.linguagens) && UniqueNames(db.linguagens.rows)
    ensures var r := AddLanguages(db, ev, names);
      && r.eventos == db.eventos && r.syncLogs == db.syncLogs && r.selos == db.selos
      && UniqueNames(r.linguagens.rows)
      && (forall k :: k in db.linguagens.rows ==> k in r.linguagens.rows && r.linguagens.rows[k] == db.linguagens.rows[k])
      && (forall k :: k in r.linguagens.rows && k !in db.linguagens.rows ==> r.linguagens.rows[k] in names)
      && (forall k :: 0 <= k < |names| ==> HasLanguage(r, names[k]))
      && (forall link: (nat, nat) :: link.0 != ev ==> (link in r.eventosLinguagens <==> link in db.eventosLinguagens))
      && (forall l: nat :: (ev, l) in r.eventosLinguagens <==>
                        (ev, l) in db.eventosLinguagens || NamedIn(r.linguagens.rows, l, names))
  {
    AddLanguagesFrame(db, ev, names);
    AddLanguagesNamed(db, ev, names);
    AddLanguagesLinks(db, ev, names);
  }

  /** syncEventLanguages as a whole: afterwards the
      event's links are exactly the ids of the given names (a repeated name
      gives one link), other events' links are untouched, and the language
      rows only grow. */
  lemma LanguageLinksExact(db: Db, ev: nat, names: seq<string>)
    requires TableValid(db.linguagens) && UniqueNames(db.linguagens.rows)
    ensures var r := SyncEventLanguages(db, ev, names);
      && r.eventos == db.eventos && r.syncLogs == db.syncLogs && r.selos == db.selos
      && UniqueNames(r.linguagens.rows)
      && (forall k :: k in db.linguagens.rows ==> k in r.linguagens.rows && r.linguagens.rows[k] == db.linguagens.rows[k])
      && (forall k :: 0 <= k < |names| ==> HasLanguage(r, names[k]))
      && (forall link: (nat, nat) :: link.0 != ev ==> (link in r.eventosLinguagens <==> link in db.eventosLinguagens))
      && (forall l: nat :: (ev, l) in r.eventosLinguagens <==> NamedIn(r.linguagens.rows, l, names))
  {
    AddLanguagesEffect(LinksDeleted(db, ev), ev, names);
  }

  /** When every name already has a row, adding the languages creates none. */
  lemma {:induction false} AddKnownLanguages(db: Db, ev: nat, names: seq<string>)
    requires TableValid(db.linguagens) && UniqueNames(db.linguagens.rows)
    requires forall k :: 0 <= k < |names| ==> HasLanguage(db, names[k])
    ensures AddLanguages(db, ev, names).linguagens == db.linguagens
    decreases |names|
  {
    if names != [] {
      var init := names[..|names| - 1];
      assert forall k :: 0 <= k < |init| ==> init[k] == names[k];
      AddKnownLanguages(db, ev, init);
      var prev := AddLanguages(db, ev, init);
      assert HasLanguage(db, names[|names| - 1]);
      assert prev.linguagens == db.linguagens;
      assert HasLanguage(prev, names[|names| - 1]);
    }
  }

  /** Replacing an event's links twice with the same names is the same as
      doing it once. */
  lemma SyncEventLanguagesIdempotent(db: Db, ev: nat, names: seq<string>)
    requires TableValid(db.linguagens) && UniqueNames(db.linguagens.rows)
    ensures var once := SyncEventLanguages(db, ev, names);
            SyncEventLanguages(once, ev, names) == once
  {
    var once := SyncEventLanguages(db, ev, names);
    LanguageLinksExact(db, ev, names);
    LanguageLinksExact(once, ev, names);
    var twice := SyncEventLanguages(once, ev, names);
    AddKnownLanguages(LinksDeleted(once, ev), ev, names);
    assert twice.linguagens == once.linguagens;
    assert twice.eventosLinguagens == once.eventosLinguagens;
  }

  /** `if (!empty($apiEvent['terms']['linguagem']))`: the links are replaced
      only when the event names some language. */
  function LinkLanguages(db: Db, eventoId: nat, names: seq<string>): Db
    requires TableValid(db.linguagens)
  {
    if |names| > 0 then SyncEventLanguages(db, eventoId, names) else db
  }

  /** With no language names, the event's existing links stay as they are. */
  lemma NoLanguagesKeepLinks(db: Db, ev: nat)
    requires TableValid(db.linguagens)
    ensures LinkLanguages(db, ev, []) == db
  {
  }

  /** The body of processEvent once the row is normalised: skip, update
      the row with this external id, or insert. */
  function ProcessRow(db: Db, row: EventRow, names: seq<string>): (r: Step<Resultado>)
    requires Valid(db)
    ensures r.value == Ignorado <==> Skipped(row)
    ensures r.value == Atualizado <==> !Skipped(row) && FindEvento(db, row.externalId).Some?
    ensures Skipped(row) ==> r.db == db
  {
    if Skipped(row) then Step(db, Ignorado)
    else
      match FindEvento(db, row.externalId)
      case Some(id) =>
        Step(LinkLanguages(EventoUpdated(db, id, row), id, names), Atualizado)
      case None =>
        Step(LinkLanguages(EventoInserted(db, row), db.eventos.nextId, names), Novo)
  }

  /** processEvent. */
  function ProcessEvent(db: Db, e: ApiEvent): (r: Step<Resultado>)
    requires Valid(db)
    ensures r.value == Ignorado <==> Skipped(ExtractEventData(e))
    ensures r.value == Atualizado <==> !Skipped(ExtractEventData(e)) && FindEvento(db, e.id).Some?
  {
    ProcessRow(db, ExtractEventData(e), e.linguagem)
  }

  /** The id of the event row that processEvent writes. */
  function WrittenId(db: Db, row: EventRow): nat
    requires TableValid(db.eventos)
  {
    match FindEvento(db, row.externalId)
    case Some(id) => id
    case None => db.eventos.nextId
  }

  /** The event row as processEvent writes it, before the languages. */
  function RowWritten(db: Db, row: EventRow): Db
    requires TableValid(db.eventos)
  {
    if FindEvento(db, row.externalId).Some? then EventoUpdated(db, WrittenId(db, row), row)
    else EventoInserted(db, row)
  }

  /** Writing the row keeps integrity and leaves it under WrittenId: the
      same id with every column replaced when the external id is known,
      one new row under the next id otherwise. */
  lemma RowWrittenEffect(db: Db, row: EventRow)
    requires Valid(db)
    ensures var d := RowWritten(db, row);
            var id := WrittenId(db, row);
      && Valid(d)
      && d.linguagens == db.linguagens && d.eventosLinguagens == db.eventosLinguagens
      && d.syncLogs == db.syncLogs && d.selos == db.selos
      && d.eventos.rows == db.eventos.rows[id := row]
      && (HasEvento(db, row.externalId) ==> id in db.eventos.rows && d.eventos.nextId == db.eventos.nextId)
      && (!HasEvento(db, row.externalId) ==> id == db.eventos.nextId && id !in db.eventos.rows
                                             && d.eventos.nextId == db.eventos.nextId + 1)
  {
    var id := WrittenId(db, row);
    if FindEvento(db, row.externalId).Some? {
      assert db.eventos.rows[id].externalId == row.externalId;
      assert row.(externalId := db.eventos.rows[id].externalId) == row;
    }
  }

  /** Replacing an event's links keeps integrity and touches only the
      languages and the links. */
  lemma LinkLanguagesValid(db: Db, ev: nat, names: seq<string>)
    requires Valid(db) && ev in db.eventos.rows
    ensures var r := LinkLanguages(db, ev, names);
      Valid(r) && r.eventos == db.eventos && r.syncLogs == db.syncLogs && r.selos == db.selos
  {
    if |names| > 0 {
      LanguageLinksExact(db, ev, names);
      var r := LinkLanguages(db, ev, names);
      forall link | link in r.eventosLinguagens
        ensures link.0 in r.eventos.rows && link.1 in r.linguagens.rows
      {
        if link.0 != ev {
          assert link in db.eventosLinguagens;
        } else {
          assert NamedIn(r.linguagens.rows, link.1, names);
        }
      }
    }
  }

  /** processEvent keeps the store's integrity: ids from the counters,
      unique external ids, unique language names, links that resolve. It
      touches neither the ledger nor the seals. */
  lemma ProcessRowValid(db: Db, row: EventRow, names: seq<string>)
    requires Valid(db)
    ensures var r := ProcessRow(db, row, names).db;
      Valid(r) && r.syncLogs == db.syncLogs && r.selos == db.selos
  {
    if !Skipped(row) {
      RowWrittenEffect(db, row);
      LinkLanguagesValid(RowWritten(db, row), WrittenId(db, row), names);
    }
  }

  /** Upsert by external id: an ignored event writes nothing; a known
      external id gives a full update of its row under the same id (the
      external id unchanged) and 'atualizado'; an unknown one inserts
      exactly one row and gives 'novo'. No row is ever removed. */
  lemma UpsertByExternalId(db: Db, row: EventRow, names: seq<string>)
    requires Valid(db)
    ensures var r := ProcessRow(db, row, names);
      && (Skipped(row) <==> r.value == Ignorado)
      && (Skipped(row) ==> r.db == db)
      && (!Skipped(row) && HasEvento(db, row.externalId) ==>
            r.value == Atualizado
            && r.db.eventos.nextId == db.eventos.nextId
            && exists id :: id in db.eventos.rows && db.eventos.rows[id].externalId == row.externalId
                            && r.db.eventos.rows == db.eventos.rows[id := row])
      && (!Skipped(row) && !HasEvento(db, row.externalId) ==>
            r.value == Novo
            && db.eventos.nextId !in db.eventos.rows
            && r.db.eventos.rows == db.eventos.rows[db.eventos.nextId := row]
            && r.db.eventos.nextId == db.eventos.nextId + 1)
  {
    if !Skipped(row) {
      RowWrittenEffect(db, row);
      var id := WrittenId(db, row);
      LinkLanguagesValid(RowWritten(db, row), id, names);
      if HasEvento(db, row.externalId) {
        assert db.eventos.rows[id].externalId == row.externalId;
      }
    }
  }

  /** The effect of one processEvent as the run loop needs it: integrity,
      the counter moving only on 'novo', no row lost, and the event's row
      present unless it was ignored. */
  lemma ProcessRowSummary(db: Db, row: EventRow, names: seq<string>)
    requires Valid(db)
    ensures var r := ProcessRow(db, row, names);
      && Valid(r.db) && r.db.syncLogs == db.syncLogs && r.db.selos == db.selos
      && r.db.eventos.nextId == db.eventos.nextId + (if r.value == Novo then 1 else 0)
      && (r.value == Novo ==> !HasEvento(db, row.externalId))
      && (r.value != Novo ==> r.db.eventos.rows.Keys == db.eventos.rows.Keys)
      && (forall id :: id in db.eventos.rows ==> id in r.db.eventos.rows && r.db.eventos.rows[id].externalId == db.eventos.rows[id].externalId)
      && (r.value == Ignorado <==> Skipped(row))
      && (!Skipped(row) ==> HasEvento(r.db, row.externalId))
  {
    ProcessRowValid(db, row, names);
    if !Skipped(row) {
      RowWrittenEffect(db, row);
      var id := WrittenId(db, row);
      LinkLanguagesValid(RowWritten(db, row), id, names);
      var r := ProcessRow(db, row, names);
      assert r.db.eventos == RowWritten(db, row).eventos;
      assert r.db.eventos.rows[id].externalId == row.externalId;
    }
  }

  /** Processing the same row twice: the second pass reports 'atualizado'
      and leaves the store exactly as the first pass left it, so the event
      keeps a single row and the same links. */
  lemma ProcessRowTwice(db: Db, row: EventRow, names: seq<string>)
    requires Valid(db) && !Skipped(row)
    ensures var once := ProcessRow(db, row, names).db;
            Valid(once) && ProcessRow(once, row, names) == Step(once, Atualizado)
  {
    var id := WrittenId(db, row);
    var d := RowWritten(db, row);
    RowWrittenEffect(db, row);
    LinkLanguagesValid(d, id, names);
    var once := LinkLanguages(d, id, names);
    assert ProcessRow(db, row, names).db == once;
    StoredRowFound(once, id, row);
    StoredRowRewrite(once, id, row);
    assert ProcessRow(once, row, names) == Step(LinkLanguages(once, id, names), Atualizado);
    if |names| > 0 {
      SyncEventLanguagesIdempotent(d, id, names);
    }
  }

  /** With unique external ids, the row stored under `id` is the one found
      for its external id. */
  lemma StoredRowFound(db: Db, id: nat, row: EventRow)
    requires Valid(db) && id in db.eventos.rows && db.eventos.rows[id] == row
    ensures FindEvento(db, row.externalId) == Some(id)
  {
  }

  /** Rewriting a row with its own contents changes nothing. */
  lemma StoredRowRewrite(db: Db, id: nat, row: EventRow)
    requires id in db.eventos.rows && db.eventos.rows[id] == row
    ensures EventoUpdated(db, id, row) == db
  {
    assert db.eventos.rows[id := row] == db.eventos.rows;
  }

  /** processEvent run twice on the same event. */
  lemma ProcessEventTwice(db: Db, e: ApiEvent)
    requires Valid(db) && !Skipped(ExtractEventData(e))
    ensures var once := ProcessEvent(db, e).db;
            Valid(once) && ProcessEvent(once, e) == Step(once, Atualizado)
  {
    ProcessRowTwice(db, ExtractEventData(e), e.linguagem);
  }

  /** The counters of syncEvents as the loop leaves them, with the store. */
  datatype Tally = Tally(db: Db, novos: nat, atualizados: nat, erros: nat)

  /** One turn of the loop: a faulting event counts as an error and writes
      nothing; otherwise the answer of processEvent picks the counter. */
  function Count(prev: Tally, s: Step<Resultado>, faulted: bool): Tally
  {
    if faulted then prev.(erros := prev.erros + 1)
    else
      match s.value
      case Novo => Tally(s.db, prev.novos + 1, prev.atualizados, prev.erros)
      case Atualizado => Tally(s.db, prev.novos, prev.atualizados + 1, prev.erros)
      case Ignorado => prev.(db := s.db)
  }

  /** The per-event loop of syncEvents over `events`; an event whose index
      is in `faults` throws inside processEvent. */
  function ProcessAll(db: Db, events: seq<ApiEvent>, faults: set<nat>): (t: Tally)
    requires Valid(db)
    ensures Valid(t.db)
    decreases |events|
  {
    if events == [] then Tally(db, 0, 0, 0)
    else
      var prev := ProcessAll(db, events[..|events| - 1], faults);
      var i := |events| - 1;
      if i in faults then prev.(erros := prev.erros + 1)
      else
        var e := events[i];
        ProcessRowValid(prev.db, ExtractEventData(e), e.linguagem);
        Count(prev, ProcessEvent(prev.db, e), false)
  }

  /** One more turn of the loop, unfolded. */
  lemma ProcessAllNext(db: Db, events: seq<ApiEvent>, faults: set<nat>, i: nat)
    requires Valid(db) && i < |events|
    ensures var prev := ProcessAll(db, events[..i], faults);
      ProcessAll(db, events[..i + 1], faults)
        == if i in faults then prev.(erros := prev.erros + 1) else Count(prev, ProcessEvent(prev.db, events[i]), false)
  {
    assert events[..i + 1][..i] == events[..i];
  }

  /** The number of indices below n that fault. */
  function FaultsBelow(faults: set<nat>, n: nat): nat
  {
    if n == 0 then 0 else FaultsBelow(faults, n - 1) + (if n - 1 in faults then 1 else 0)
  }

  lemma {:induction false} FaultsBelowNone(n: nat)
    ensures FaultsBelow({}, n) == 0
  {
    if n > 0 {
      FaultsBelowNone(n - 1);
    }
  }

  /** The loop's counters: novos counts the rows inserted (the event
      counter advances by exactly novos), erros counts the faulting events,
      and the three together never exceed the number of events. The loop
      leaves the ledger and the seals alone and never removes a row. */
  lemma {:induction false} ProcessAllCounters(db: Db, events: seq<ApiEvent>, faults: set<nat>)
    requires Valid(db)
    ensures var t := ProcessAll(db, events, faults);
      && t.novos + t.atualizados + t.erros <= |events|
      && t.erros == FaultsBelow(faults, |events|)
      && t.db.eventos.nextId == db.eventos.nextId + t.novos
      && t.db.syncLogs == db.syncLogs && t.db.selos == db.selos
      && RowsKept(db, t.db)
    decreases |events|
  {
    if events != [] {
      var init := events[..|events| - 1];
      ProcessAllCounters(db, init, faults);
      var prev := ProcessAll(db, init, faults);
      var i := |events| - 1;
      var t := ProcessAll(db, events, faults);
      if i in faults {
        assert t == prev.(erros := prev.erros + 1);
      } else {
        assert t == Count(prev, ProcessEvent(prev.db, events[i]), false);
        CountSummary(prev, events[i]);
      }
    }
  }

  /** A turn of the loop on an event that does not throw: at most one
      counter moves, the event table grows by a row only for 'novo', the
      ledger and the seals are untouched and no row is lost. */
  lemma CountSummary(prev: Tally, e: ApiEvent)
    requires Valid(prev.db)
    ensures var t := Count(prev, ProcessEvent(prev.db, e), false);
      && t.novos + t.atualizados + t.erros <= prev.novos + prev.atualizados + prev.erros + 1
      && t.erros == prev.erros
      && t.db.eventos.nextId == prev.db.eventos.nextId + (t.novos - prev.novos)
      && t.db.syncLogs == prev.db.syncLogs && t.db.selos == prev.db.selos
      && RowsKept(prev.db, t.db)
  {
    ProcessRowSummary(prev.db, ExtractEventData(e), e.linguagem);
  }

  /** No row lost and no external id changed from `a` to `b`. */
  ghost predicate RowsKept(a: Db, b: Db)
  {
    forall id :: id in a.eventos.rows ==> id in b.eventos.rows && b.eventos.rows[id].externalId == a.eventos.rows[id].externalId
  }

  lemma HasEventoKept(a: Db, b: Db, x: int)
    requires RowsKept(a, b) && HasEvento(a, x)
    ensures HasEvento(b, x)
  {
    var j :| j in a.eventos.rows && a.eventos.rows[j].externalId == x;
    assert j in b.eventos.rows && b.eventos.rows[j].externalId == x;
  }

  /** The last turn of the loop keeps every row. */
  lemma ProcessAllLastKeepsRows(db: Db, events: seq<ApiEvent>, faults: set<nat>)
    requires Valid(db) && events != []
    ensures var i := |events| - 1;
            var prev := ProcessAll(db, events[..i], faults);
            var t := ProcessAll(db, events, faults);
      && RowsKept(prev.db, t.db)
      && (i !in faults && !Skipped(ExtractEventData(events[i])) ==> HasEvento(t.db, events[i].id))
  {
    var i := |events| - 1;
    var prev := ProcessAll(db, events[..i], faults);
    var t := ProcessAll(db, events, faults);
    if i in faults {
      assert t == prev.(erros := prev.erros + 1);
    } else {
      var e := events[i];
      assert t == Count(prev, ProcessEvent(prev.db, e), false);
      ProcessRowSummary(prev.db, ExtractEventData(e), e.linguagem);
    }
  }

  /** Every event of `events` that neither faulted nor is ignored has a
      row in `db`. */
  ghost predicate Stored(db: Db, events: seq<ApiEvent>, faults: set<nat>)
    decreases |events|
  {
    events == [] ||
    (Stored(db, events[..|events| - 1], faults) &&
     (|events| - 1 in faults || Skipped(ExtractEventData(events[|events| - 1])) ||
      HasEvento(db, events[|events| - 1].id)))
  }

  /** Rows kept from `a` to `b` keep every stored event stored. */
  lemma {:induction false} StoredKept(a: Db, b: Db, events: seq<ApiEvent>, faults: set<nat>)
    requires RowsKept(a, b) && Stored(a, events, faults)
    ensures Stored(b, events, faults)
    decreases |events|
  {
    if events != [] {
      StoredKept(a, b, events[..|events| - 1], faults);
      var i := |events| - 1;
      if i !in faults && !Skipped(ExtractEventData(events[i])) {
        HasEventoKept(a, b, events[i].id);
      }
    }
  }

  /** After the loop, every event that neither faulted nor was ignored has
      its row. */
  lemma {:induction false} ProcessAllStoresEvents(db: Db, events: seq<ApiEvent>, faults: set<nat>)
    requires Valid(db)
    ensures Stored(ProcessAll(db, events, faults).db, events, faults)
    decreases |events|
  {
    if events != [] {
      var i := |events| - 1;
      var init := events[..i];
      ProcessAllStoresEvents(db, init, faults);
      var prev := ProcessAll(db, init, faults);
      var t := ProcessAll(db, events, faults);
      ProcessAllLastKeepsRows(db, events, faults);
      StoredKept(prev.db, t.db, init, faults);
    }
  }

  /** With every event already stored, the loop inserts nothing. */
  lemma {:induction false} ProcessAllKnownEvents(db: Db, events: seq<ApiEvent>, faults: set<nat>)
    requires Valid(db) && Stored(db, events, {})
    ensures var t := ProcessAll(db, events, faults);
      t.novos == 0 && t.db.eventos.rows.Keys == db.eventos.rows.Keys
    decreases |events|
  {
    if events != [] {
      var i := |events| - 1;
      var init := events[..i];
      ProcessAllKnownEvents(db, init, faults);
      ProcessAllCounters(db, init, faults);
      var prev := ProcessAll(db, init, faults);
      var t := ProcessAll(db, events, faults);
      if i in faults {
        assert t == prev.(erros := prev.erros + 1);
      } else {
        var e := events[i];
        var row := ExtractEventData(e);
        assert t == Count(prev, ProcessRow(prev.db, row, e.linguagem), false);
        if !Skipped(row) {
          assert RowsKept(db, prev.db);
          HasEventoKept(db, prev.db, e.id);
        }
        ProcessRowSummary(prev.db, row, e.linguagem);
      }
    }
  }

  /** A second fault-free pass over the same events inserts nothing: every
      stored event is found by its external id and updated in place. */
  lemma SecondPassInsertsNothing(db: Db, events: seq<ApiEvent>)
    requires Valid(db)
    ensures var first := ProcessAll(db, events, {});
            var second := ProcessAll(first.db, events, {});
            second.novos == 0 && second.erros == 0
            && second.db.eventos.rows.Keys == first.db.eventos.rows.Keys
  {
    var first := ProcessAll(db, events, {});
    ProcessAllStoresEvents(db, events, {});
    ProcessAllKnownEvents(first.db, events, {});
    ProcessAllCounters(first.db, events, {});
    FaultsBelowNone(|events|);
  }
}
