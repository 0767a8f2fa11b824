/** api/eventos.php: the paginated listing of stored events. The query
    string is clamped into a page and a page size, the filters become the
    WHERE clauses shared by the page query and the count query, and the
    whole response is cached for an hour under a key derived from the
    five request parameters. */
module EventosEndpoint {

  import opened Wrappers
  import opened Text
  import Json
  import Cache
  import SyncEngine

  /** The request parameters after defaults and clamping. */
  datatype Query = Query(municipio: Option<string>, linguagem: Option<string>, periodo: string, page: int, limit: int)

  const DefaultPeriodo := "todos"
  const DefaultLimit: int := 50
  const MinLimit: int := 10
  const MaxLimit: int := 100
  const CacheTtl: nat := 3600
  const KeyPrefix := "eventos:"

  /** `max(1, (int)($_GET['page'] ?? 1))`. */
  function ClampPage(raw: Option<string>): (p: int)
    ensures p >= 1
    ensures raw.None? ==> p == 1
    ensures raw.Some? && PhpIntval(raw.value) >= 1 ==> p == PhpIntval(raw.value)
    ensures raw.Some? && PhpIntval(raw.value) < 1 ==> p == 1
  {
    Max(1, if raw.Some? then PhpIntval(raw.value) else 1)
  }

  /** `min(100, max(10, (int)($_GET['limit'] ?? 50)))`. */
  function ClampLimit(raw: Option<string>): (l: int)
    ensures MinLimit <= l <= MaxLimit
    ensures raw.None? ==> l == DefaultLimit
    ensures raw.Some? && MinLimit <= PhpIntval(raw.value) <= MaxLimit ==> l == PhpIntval(raw.value)
    ensures raw.Some? && PhpIntval(raw.value) < MinLimit ==> l == MinLimit
    ensures raw.Some? && PhpIntval(raw.value) > MaxLimit ==> l == MaxLimit
  {
    Min(MaxLimit, Max(MinLimit, if raw.Some? then PhpIntval(raw.value) else DefaultLimit))
  }

  function Param(get: map<string, string>, name: string): Option<string>
  {
    if name in get then Some(get[name]) else None
  }

  /** The parameters read from `$_GET`. */
  function ParseQuery(get: map<string, string>): (q: Query)
    ensures q.page >= 1 && MinLimit <= q.limit <= MaxLimit
    ensures q.municipio == Param(get, "municipio") && q.linguagem == Param(get, "linguagem")
    ensures q.periodo == (if "periodo" in get then get["periodo"] else DefaultPeriodo)
  {
    Query(Param(get, "municipio"), Param(get, "linguagem"),
          Param(get, "periodo").GetOr(DefaultPeriodo),
          ClampPage(Param(get, "page")), ClampLimit(Param(get, "limit")))
  }

  /** `($page - 1) * $limit`: a page starts right after the rows of the
      pages before it. */
  function Offset(page: int, limit: int): (o: nat)
    requires page >= 1 && limit >= 1
    ensures o % limit == 0 && o / limit == page - 1
    ensures page == 1 ==> o == 0
  {
    MultipleDivides(page - 1, limit);
    (page - 1) * limit
  }

  /** Euclidean division recovers the factor of an exact multiple. */
  lemma MultipleDivides(k: nat, l: int)
    requires l >= 1
    ensures (k * l) / l == k && (k * l) % l == 0
  {
    var q := (k * l) / l;
    var r := (k * l) % l;
    assert k * l == l * q + r;
    assert l * (k - q) == r;
    if k - q >= 1 {
      MulMonotone(1, k - q, l);
    } else if k - q <= -1 {
      MulMonotone(1, q - k, l);
    }
  }

  /** Consecutive pages are adjacent windows of `limit` rows. */
  lemma OffsetNext(page: int, limit: int)
    requires page >= 1 && limit >= 1
    ensures Offset(page + 1, limit) == Offset(page, limit) + limit
  {
  }

  /** `ceil($total / $limit)`. */
  function Pages(total: nat, limit: int): (n: nat)
    requires limit >= 1
    ensures total == 0 <==> n == 0
    ensures n * limit >= total
    ensures n > 0 ==> (n - 1) * limit < total
  {
    (total + limit - 1) / limit
  }

  /** A page number holds rows exactly when it is within `pages`. */
  lemma {:induction false} PageInRange(total: nat, limit: int, page: int)
    requires limit >= 1 && page >= 1
    ensures Offset(page, limit) < total <==> page <= Pages(total, limit)
  {
    var n := Pages(total, limit);
    if page <= n {
      assert (page - 1) * limit <= (n - 1) * limit by {
        MulMonotone(page - 1, n - 1, limit);
      }
    } else {
      assert n * limit <= (page - 1) * limit by {
        MulMonotone(n, page - 1, limit);
      }
    }
  }

  lemma MulMonotone(a: int, b: int, c: int)
    requires 0 <= a <= b && c >= 0
    ensures a * c <= b * c
  {
  }

  // ----- the WHERE clauses -----

  datatype Clause = MunicipioIs | LinguagemIs | StartsFromNow | EndedBeforeNow

  /** The SQL text of a clause. */
  function ClauseSql(c: Clause): string
  {
    match c
    case MunicipioIs => "e.municipio = :municipio"
    case LinguagemIs => "l.nome = :linguagem"
    case StartsFromNow => "e.data_inicio >= NOW()"
    case EndedBeforeNow => "e.data_fim < NOW()"
  }

  /** The position of a clause's filter in the code. */
  function Rank(c: Clause): nat
  {
    match c
    case MunicipioIs => 0
    case LinguagemIs => 1
    case StartsFromNow => 2
    case EndedBeforeNow => 2
  }

  /** `if ($municipio)`: a present value that PHP finds truthy. */
  predicate Given(v: Option<string>)
  {
    v.Some? && Json.TruthyString(v.value)
  }

  /** The clauses the filters contribute, in the order the script checks them. */
  function Clauses(q: Query): (w: seq<Clause>)
    ensures MunicipioIs in w <==> Given(q.municipio)
    ensures LinguagemIs in w <==> Given(q.linguagem)
    ensures StartsFromNow in w <==> q.periodo == "futuros"
    ensures EndedBeforeNow in w <==> q.periodo == "passados"
    ensures forall i, j :: 0 <= i < j < |w| ==> Rank(w[i]) < Rank(w[j])
  {
    (if Given(q.municipio) then [MunicipioIs] else [])
    + (if Given(q.linguagem) then [LinguagemIs] else [])
    + (if q.periodo == "futuros" then [StartsFromNow]
       else if q.periodo == "passados" then [EndedBeforeNow] else [])
  }

  /** The named parameters bound to both statements. */
  function Params(q: Query): (p: map<string, string>)
    ensures "municipio" in p <==> Given(q.municipio)
    ensures "linguagem" in p <==> Given(q.linguagem)
    ensures "municipio" in p ==> p["municipio"] == q.municipio.value
    ensures "linguagem" in p ==> p["linguagem"] == q.linguagem.value
    ensures forall k :: k in p ==> k in {"municipio", "linguagem"}
  {
    var m := if Given(q.municipio) then map["municipio" := q.municipio.value] else map[];
    if Given(q.linguagem) then m["linguagem" := q.linguagem.value] else m
  }

  /** Every placeholder in a clause has its parameter bound. */
  lemma PlaceholdersBound(q: Query)
    ensures MunicipioIs in Clauses(q) ==> "municipio" in Params(q)
    ensures LinguagemIs in Clauses(q) ==> "linguagem" in Params(q)
  {
  }

  /** How `$where` and `$params` are appended to, filter by filter. */
  method BuildFilters(q: Query) returns (where: seq<Clause>, params: map<string, string>)
    ensures where == Clauses(q) && params == Params(q)
  {
    where := [];
    params := map[];
    if Given(q.municipio) {
      where := where + [MunicipioIs];
      params := params["municipio" := q.municipio.value];
    }
    if Given(q.linguagem) {
      where := where + [LinguagemIs];
      params := params["linguagem" := q.linguagem.value];
    }
    if q.periodo == "futuros" {
      where := where + [StartsFromNow];
    } else if q.periodo == "passados" {
      where := where + [EndedBeforeNow];
    }
  }

  function ClauseTexts(w: seq<Clause>): (r: seq<string>)
    ensures |r| == |w| && forall i :: 0 <= i < |w| ==> r[i] == ClauseSql(w[i])
  {
    if w == [] then [] else [ClauseSql(w[0])] + ClauseTexts(w[1..])
  }

  /** `" WHERE " . implode(" AND ", $where)`, or nothing when no filter
      applies. */
  function WhereSql(w: seq<Clause>): (s: string)
    ensures s == "" <==> w == []
    ensures w != [] ==> IsPrefix(" WHERE ", s)
  {
    if w == [] then "" else " WHERE " + Join(ClauseTexts(w), " AND ")
  }

  const SelectHead := "SELECT e.*, GROUP_CONCAT(DISTINCT l.nome SEPARATOR ', ') as linguagens FROM eventos e"
  const LeftJoin := " LEFT JOIN"
  const LanguageJoins := LeftJoin + " eventos_linguagens el ON e.id = el.evento_id" + LeftJoin + " linguagens l ON el.linguagem_id = l.id"
  const SelectTail := " GROUP BY e.id ORDER BY e.nome ASC LIMIT :limit OFFSET :offset"
  const CountHead := "SELECT COUNT(DISTINCT e.id) as total FROM eventos e"

  /** The page query always joins the languages. */
  function SelectSql(w: seq<Clause>): (sql: string)
    ensures IsPrefix(SelectHead + LanguageJoins, sql)
  {
    SelectHead + LanguageJoins + WhereSql(w) + SelectTail
  }

  /** The count query joins the languages only for the language filter. */
  function CountSql(q: Query, w: seq<Clause>): (sql: string)
    ensures IsPrefix(CountHead, sql)
  {
    CountHead + (if Given(q.linguagem) then LanguageJoins else "") + WhereSql(w)
  }

  /** The count query carries the language joins exactly when the language
      filter is given, which is exactly when a clause mentions `l.nome`;
      it ends with the very WHERE text of the page query. */
  lemma {:induction false} CountSqlShape(q: Query)
    ensures var w := Clauses(q);
      && (IsPrefix(CountHead + LanguageJoins, CountSql(q, w)) <==> LinguagemIs in w)
      && IsSuffix(WhereSql(w), CountSql(q, w))
      && IsSuffix(WhereSql(w) + SelectTail, SelectSql(w))
  {
    var w := Clauses(q);
    CountJoins(q, w);
    SuffixOfConcat(CountHead + (if Given(q.linguagem) then LanguageJoins else ""), WhereSql(w));
    assert SelectSql(w) == (SelectHead + LanguageJoins) + (WhereSql(w) + SelectTail);
    SuffixOfConcat(SelectHead + LanguageJoins, WhereSql(w) + SelectTail);
  }

  lemma SuffixOfConcat(a: string, b: string)
    ensures IsSuffix(b, a + b)
  {
    assert (a + b)[|a|..] == b;
  }

  lemma CountJoins(q: Query, w: seq<Clause>)
    requires LinguagemIs in w <==> Given(q.linguagem)
    ensures IsPrefix(CountHead + LanguageJoins, CountSql(q, w)) <==> LinguagemIs in w
  {
    var c := CountSql(q, w);
    if Given(q.linguagem) {
      assert c == (CountHead + LanguageJoins) + WhereSql(w);
      assert c[..|CountHead + LanguageJoins|] == CountHead + LanguageJoins;
    } else if w != [] {
      assert c == CountHead + WhereSql(w);
      JoinsIsNotWhere(WhereSql(w));
    }
  }

  /** A WHERE text cannot start where the joins would. */
  lemma JoinsIsNotWhere(ws: string)
    requires IsPrefix(" WHERE ", ws)
    ensures !IsPrefix(CountHead + LanguageJoins, CountHead + ws)
  {
    var h := |CountHead|;
    var p := CountHead + LanguageJoins;
    var c := CountHead + ws;
    assert p[h + 1] == LanguageJoins[1] == LeftJoin[1] == 'L';
    assert ws[..7] == " WHERE ";
    assert c[h + 1] == ws[1] == 'W';
  }

  // ----- the cache key and the request flow -----

  /** A JSON string literal, as json_encode writes one (only the quote and
      the backslash are escaped here). */
  function QuoteJson(s: string): string
  {
    if s == [] then []
    else (if s[0] == '"' || s[0] == '\\' then ['\\', s[0]] else [s[0]]) + QuoteJson(s[1..])
  }

  function JsonText(v: Option<string>): string
  {
    if v.Some? then "\"" + QuoteJson(v.value) + "\"" else "null"
  }

  /** The text the key is derived from: the five parameters encoded as a
      JSON object; md5 of it is not modelled. */
  function KeyText(q: Query): string
  {
    "{\"municipio\":" + JsonText(q.municipio) + ",\"linguagem\":" + JsonText(q.linguagem)
    + ",\"periodo\":" + JsonText(Some(q.periodo)) + ",\"page\":" + IntToString(q.page)
    + ",\"limit\":" + IntToString(q.limit) + "}"
  }

  /** The cache key: under the prefix a successful sync clears. */
  function CacheKey(q: Query): (k: string)
    ensures IsPrefix(KeyPrefix, k)
  {
    KeyPrefix + KeyText(q)
  }

  /** A successful synchronisation drops every cached listing. */
  lemma ListingsInvalidatedBySync(entries: map<string, Cache.Entry>, q: Query)
    ensures CacheKey(q) !in SyncEngine.Invalidated(entries)
  {
  }

  /** What the count and page queries return, or the message of the
      exception they raise. */
  datatype Answer = Answer(rows: seq<Json.Value>, total: nat)

  datatype Response = Response(status: nat, body: Json.Value)

  function SuccessBody(q: Query, a: Answer): (b: Json.Value)
    requires q.limit >= 1
    ensures Json.Truthy(b)
  {
    Json.Obj(map[
      "success" := Json.Bool(true),
      "data" := Json.Arr(a.rows),
      "pagination" := Json.Obj(map[
        "page" := Json.Num(q.page),
        "limit" := Json.Num(q.limit),
        "total" := Json.Num(a.total),
        "pages" := Json.Num(Pages(a.total, q.limit))])])
  }

  function ErrorBody(message: string): Json.Value
  {
    Json.Obj(map["success" := Json.Bool(false), "error" := Json.Str(message)])
  }

  /** A cache hit: connected, and a truthy stored value under the key. */
  predicate Hit(connected: bool, entries: map<string, Cache.Entry>, key: string)
  {
    connected && key in entries && Json.Truthy(entries[key].value)
  }

  /** The message config/database.php raises when the connection fails. */
  const ConnectFailure := "Falha ao conectar com o banco de dados. Verifique as configurações."

  /** The request as a whole: the response sent and the cache entries
      left. `dbUp` says whether the database connection, opened before
      anything else, succeeds; when it fails the request answers 500
      without reading the cache. A hit answers from the cache; otherwise
      the store is queried, a successful response is cached for an hour
      when the cache is connected, and a failing query answers 500. */
  function Serve(dbUp: bool, connected: bool, entries: map<string, Cache.Entry>, get: map<string, string>, answer: Result<Answer>)
    : (out: (Response, map<string, Cache.Entry>))
    ensures !dbUp ==> out == (Response(500, ErrorBody(ConnectFailure)), entries)
    ensures var key := CacheKey(ParseQuery(get));
      && (dbUp && Hit(connected, entries, key) ==> out == (Response(200, entries[key].value), entries))
      && (dbUp && !Hit(connected, entries, key) && answer.Err? ==> out == (Response(500, ErrorBody(answer.message)), entries))
      && (dbUp && !Hit(connected, entries, key) && answer.Ok? ==>
            && out.0 == Response(200, SuccessBody(ParseQuery(get), answer.value))
            && out.1 == if connected then entries[key := Cache.Entry(out.0.body, CacheTtl)] else entries)
  {
    var q := ParseQuery(get);
    var key := CacheKey(q);
    if !dbUp then (Response(500, ErrorBody(ConnectFailure)), entries)
    else if Hit(connected, entries, key) then (Response(200, entries[key].value), entries)
    else match answer
      case Err(m) => (Response(500, ErrorBody(m)), entries)
      case Ok(a) =>
        var body := SuccessBody(q, a);
        (Response(200, body), if connected then entries[key := Cache.Entry(body, CacheTtl)] else entries)
  }

  /** With a connected cache, a request whose listing succeeded is
      answered again from the cache with the first response, whatever the
      store answers the second time, as long as the database connection
      opens; when it does not, the second request answers 500 and the
      cache is left as the first request left it. */
  lemma RepeatIsCached(entries: map<string, Cache.Entry>, get: map<string, string>, first: Result<Answer>, secondDbUp: bool, second: Result<Answer>)
    requires first.Ok?
    ensures var (r1, e1) := Serve(true, true, entries, get, first);
      var (r2, e2) := Serve(secondDbUp, true, e1, get, second);
      && e2 == e1
      && (secondDbUp ==> r2 == r1)
      && (!secondDbUp ==> r2 == Response(500, ErrorBody(ConnectFailure)))
  {
    var key := CacheKey(ParseQuery(get));
    var (r1, e1) := Serve(true, true, entries, get, first);
    assert Json.Truthy(r1.body);
    assert Hit(true, e1, key);
  }

  /** Only the request's own key is written. */
  lemma OtherKeysUntouched(dbUp: bool, connected: bool, entries: map<string, Cache.Entry>, get: map<string, string>, answer: Result<Answer>, k: string)
    requires k != CacheKey(ParseQuery(get))
    ensures var e := Serve(dbUp, connected, entries, get, answer).1;
      (k in e <==> k in entries) && (k in e ==> e[k] == entries[k])
  {
  }

  /** The cache read of the script: with a connected cache, a truthy
      stored value under the key. */
  method Lookup(cache: Cache.RedisCache, key: string) returns (hit: bool, cached: Json.Value)
    ensures hit == Hit(cache.connected, cache.entries, key)
    ensures hit ==> cached == cache.entries[key].value
  {
    hit := false;
    cached := Json.Null;
    if cache.IsConnected() {
      cached := cache.Get(key);
      hit := Json.Truthy(cached);
    }
  }

  /** The script against the live cache; `dbUp` is the outcome of opening
      the database connection and `answer` stands for the two statements
      run on it, SelectSql and CountSql over the clauses of BuildFilters. */
  method HandleRequest(dbUp: bool, cache: Cache.RedisCache, get: map<string, string>, answer: Result<Answer>) returns (resp: Response)
    modifies cache`entries
    ensures (resp, cache.entries) == Serve(dbUp, old(cache.connected), old(cache.entries), get, answer)
  {
    if !dbUp {
      return Response(500, ErrorBody(ConnectFailure));
    }
    var q := ParseQuery(get);
    var key := CacheKey(q);
    var hit, cached := Lookup(cache, key);
    if hit {
      return Response(200, cached);
    }
    if answer.Err? {
      return Response(500, ErrorBody(answer.message));
    }
    var body := SuccessBody(q, answer.value);
    if cache.IsConnected() {
      var _ := cache.Set(key, body, CacheTtl);
    }
    resp := Response(200, body);
  }
}
