/** SyncService::extractEventData: the pure mapping from an event record of
    the Mapa Cultural API to a row of `eventos`, and the rule by which
    processEvent ignores an event whose normalised name is not usable. */
module EventNormalizer {

  import opened Wrappers
  import opened Text
  import Json
  import Store

  /** The `location` object of an API event. */
  datatype Location = Location(address: Option<string>, latitude: Json.Value, longitude: Json.Value)

  /** One entry of `occurrences`. */
  datatype Occurrence = Occurrence(startsOn: Option<string>, endsOn: Option<string>)

  /** The fields of an API event that the engine reads; a missing key or a
      JSON null is None (or Json.Null), a missing `occurrences` or
      `terms.linguagem` is the empty sequence. */
  datatype ApiEvent = ApiEvent(
    id: int,
    name: Option<string>,
    shortDescription: Option<string>,
    longDescription: Option<string>,
    location: Option<Location>,
    municipio: Option<string>,
    cep: Option<string>,
    telefonePublico: Option<string>,
    emailPublico: Option<string>,
    site: Option<string>,
    acessibilidade: Json.Value,
    classificacaoEtaria: Option<string>,
    occurrences: seq<Occurrence>,
    linguagem: seq<string>)

  const NoName := "Sem nome"
  const NoMunicipio := "Não informado"

  /** The column widths the normaliser cuts to. */
  const WideText: nat := 255
  const MunicipioWidth: nat := 100
  const CepWidth: nat := 20
  const ShortText: nat := 50

  /** The `$truncate` closure: null stays null, a string keeps at most
      `n` characters. */
  function Truncate(s: Option<string>, n: nat): (r: Option<string>)
    ensures r.None? <==> s.None?
    ensures r.Some? ==> IsPrefix(r.value, s.value) && |r.value| == Min(|s.value|, n)
  {
    match s
    case None => None
    case Some(v) => Some(Take(v, n))
  }

  /** The trimmed text, or `fallback` when it is missing or trims to "". */
  function TrimmedOr(s: Option<string>, fallback: string): string
  {
    var t := if s.Some? then PhpTrim(s.value) else "";
    if t == "" then fallback else t
  }

  function Address(e: ApiEvent): Option<string>
  {
    if e.location.Some? then e.location.value.address else None
  }

  /** `!empty($x) ? (float)$x : null`; the float conversion is not modelled. */
  function PresentCoordinate(v: Json.Value): Option<Json.Value>
  {
    if Json.Truthy(v) then Some(v) else None
  }

  function Latitude(e: ApiEvent): Json.Value
  {
    if e.location.Some? then e.location.value.latitude else Json.Null
  }

  function Longitude(e: ApiEvent): Json.Value
  {
    if e.location.Some? then e.location.value.longitude else Json.Null
  }

  /** data_inicio: the first occurrence's startsOn. */
  function StartDate(e: ApiEvent): Option<string>
  {
    if |e.occurrences| > 0 then e.occurrences[0].startsOn else None
  }

  /** data_fim: the first occurrence's endsOn, else its startsOn. */
  function EndDate(e: ApiEvent): Option<string>
  {
    if |e.occurrences| > 0 then e.occurrences[0].endsOn.OrElse(e.occurrences[0].startsOn) else None
  }

  /** extractEventData. */
  function ExtractEventData(e: ApiEvent): (row: Store.EventRow)
    ensures row.externalId == e.id
    ensures e.name.None? || PhpTrim(e.name.value) == "" ==> row.nome == NoName
    ensures e.name.Some? && PhpTrim(e.name.value) != "" ==> row.nome == Take(PhpTrim(e.name.value), WideText)
    ensures e.municipio.None? || PhpTrim(e.municipio.value) == "" ==> row.municipio == NoMunicipio
    ensures e.municipio.Some? && PhpTrim(e.municipio.value) != "" ==> row.municipio == Take(PhpTrim(e.municipio.value), MunicipioWidth)
    ensures |row.nome| <= WideText && |row.municipio| <= MunicipioWidth
    ensures row.local == Truncate(if e.location.Some? then e.location.value.address else None, WideText)
    ensures row.cep == Truncate(e.cep, CepWidth)
    ensures row.telefone == Truncate(e.telefonePublico, ShortText)
    ensures row.email == Truncate(e.emailPublico, WideText)
    ensures row.site == Truncate(e.site, WideText)
    ensures row.classificacaoEtaria == Truncate(e.classificacaoEtaria, ShortText)
    ensures row.local.Some? ==> |row.local.value| <= WideText
    ensures row.cep.Some? ==> |row.cep.value| <= CepWidth
    ensures row.telefone.Some? ==> |row.telefone.value| <= ShortText
    ensures row.email.Some? ==> |row.email.value| <= WideText
    ensures row.site.Some? ==> |row.site.value| <= WideText
    ensures row.classificacaoEtaria.Some? ==> |row.classificacaoEtaria.value| <= ShortText
    ensures row.descricao == (if e.shortDescription.Some? then e.shortDescription
                              else e.longDescription)
    ensures row.acessibilidade == (if Json.Truthy(e.acessibilidade) then 1 else 0)
    ensures row.latitude.Some? <==> e.location.Some? && Json.Truthy(e.location.value.latitude)
    ensures row.longitude.Some? <==> e.location.Some? && Json.Truthy(e.location.value.longitude)
    ensures |e.occurrences| == 0 ==> row.dataInicio.None? && row.dataFim.None?
    ensures |e.occurrences| > 0 ==> row.dataInicio == e.occurrences[0].startsOn
    ensures |e.occurrences| > 0 && e.occurrences[0].endsOn.Some? ==> row.dataFim == e.occurrences[0].endsOn
    ensures |e.occurrences| > 0 && e.occurrences[0].endsOn.None? ==> row.dataFim == e.occurrences[0].startsOn
  {
    Store.EventRow(
      externalId := e.id,
      nome := Take(TrimmedOr(e.name, NoName), WideText),
      descricao := e.shortDescription.OrElse(e.longDescription),
      local := Truncate(Address(e), WideText),
      municipio := Take(TrimmedOr(e.municipio, NoMunicipio), MunicipioWidth),
      cep := Truncate(e.cep, CepWidth),
      latitude := PresentCoordinate(Latitude(e)),
      longitude := PresentCoordinate(Longitude(e)),
      telefone := Truncate(e.telefonePublico, ShortText),
      email := Truncate(e.emailPublico, WideText),
      site := Truncate(e.site, WideText),
      acessibilidade := if Json.Truthy(e.acessibilidade) then 1 else 0,
      classificacaoEtaria := Truncate(e.classificacaoEtaria, ShortText),
      dataInicio := StartDate(e),
      dataFim := EndDate(e))
  }

  /** processEvent's guard: `empty($nome)` (which also holds for "0"), a
      name that trims to "", or the placeholder. */
  predicate Skipped(row: Store.EventRow)
  {
    !Json.TruthyString(row.nome) || PhpTrim(row.nome) == "" || row.nome == NoName
  }

  /** A prefix of a trimmed, non-empty string still trims to something. */
  lemma TakeOfTrimmedIsNotBlank(t: string, n: nat)
    requires t != [] && t[0] !in PhpTrimChars && n >= 1
    ensures PhpTrim(Take(t, n)) != ""
  {
    var p := Take(t, n);
    assert p[0] == t[0];
  }

  /** Cutting to 255 characters neither makes nor unmakes one of the
      short names the guard compares against. */
  lemma TakeShortEquals(t: string, w: string)
    requires |w| < WideText
    ensures Take(t, WideText) == w <==> t == w
  {
    if Take(t, WideText) == w {
      assert |t| < WideText;
    }
  }

  /** An event is ignored exactly when its name is missing or trims to "",
      to "0" or to the placeholder "Sem nome". */
  lemma {:induction false} SkipRule(e: ApiEvent)
    ensures Skipped(ExtractEventData(e)) <==>
              e.name.None? || PhpTrim(e.name.value) in {"", "0", NoName}
  {
    var row := ExtractEventData(e);
    if e.name.Some? && PhpTrim(e.name.value) != "" {
      var t := PhpTrim(e.name.value);
      assert row.nome == Take(t, WideText);
      TakeOfTrimmedIsNotBlank(t, WideText);
      TakeShortEquals(t, "0");
      TakeShortEquals(t, "");
      TakeShortEquals(t, NoName);
    }
  }

  /** A stored row's name is never blank and never the placeholder. */
  lemma KeptNameIsUsable(e: ApiEvent)
    requires !Skipped(ExtractEventData(e))
    ensures e.name.Some?
    ensures ExtractEventData(e).nome == Take(PhpTrim(e.name.value), WideText)
    ensures ExtractEventData(e).nome !in {"", "0", NoName}
  {
    SkipRule(e);
  }
}
