/**
 * The browser client's form state (public/js/app.js:23-114): the report being
 * edited, its JSON data and its lists of areas, comparables, photos and
 * documents. `carregarAvaliacao` builds it from the server's report and then
 * `restaurarDoLocalStorage` lets the local cache override it
 * (public/js/app.js:978-990, :1229-1240). The browser's storage, the network and
 * the clock are inputs: the cache entry is passed in as already read and parsed.
 */
module Client {
  import opened Wrappers
  import opened Json
  import Text
  import opened Records
  import FormEdits
  import Tables

  const StoragePrefix: string := "avaliacao-pericial-"

  /** The local-storage key of a report's snapshot. */
  function StorageKey(controle: string): (k: string)
    ensures |k| == |StoragePrefix| + |controle|
    ensures k[..|StoragePrefix|] == StoragePrefix && k[|StoragePrefix|..] == controle
  {
    StoragePrefix + controle
  }

  /** A string, or an object of strings: the shape of every section of the skeleton. */
  predicate Flat(j: J) {
    j.JStr? || (j.JObj? && forall k :: k in j.fields ==> j.fields[k].JStr?)
  }

  /** An object whose listed fields all hold the empty string. */
  function Blank(keys: seq<string>): (r: map<string, J>)
    ensures forall k :: k in r ==> k in keys && r[k] == JStr("")
  {
    map k | k in keys :: JStr("")
  }

  /** The top-level keys of `defaultDados()`. */
  const SectionNames: seq<string> := [
    "cabecalho", "identificacaoImovel", "identificacaoSolicitante", "localizacaoAcessos",
    "caracteristicasRegiao", "situacaoTerreno", "caracteristicasConstrucao", "unidadeAvaliada",
    "calculoAvaliacao", "criteriosMetodologia", "relatorioFotografico", "pesquisaMercado",
    "mapaComparativo", "certidaoOnus", "espelhoCadastral", "rodape"]

  /**
   * One section of `defaultDados()`: every field empty except the report date
   * (`today`, from the clock) and the two method texts; three sections are
   * plain strings.
   */
  function Section(name: string, today: string): (r: J)
    ensures Flat(r)
  {
    match name
    case "cabecalho" =>
      JObj(Blank(["logotipoUrl", "responsavel", "creci", "art", "observacoes"])["dataLaudo" := JStr(today)])
    case "identificacaoImovel" =>
      JObj(Blank(["endereco", "matricula", "proprietario", "tipo", "finalidade", "municipio", "uf",
                  "cartorio", "inscricaoMunicipal", "ocupacao", "coordenadas"]))
    case "identificacaoSolicitante" =>
      JObj(Blank(["nome", "documento", "contato", "endereco", "tipoSolicitante"]))
    case "localizacaoAcessos" =>
      JObj(Blank(["descricao", "viasAcesso", "infraestrutura", "entorno"]))
    case "caracteristicasConstrucao" =>
      JObj(Blank(["padraoConstrutivo", "materiais", "conservacao", "idadeAparente", "instalacoes", "observacoes"]))
    case "unidadeAvaliada" =>
      JObj(Blank(["descricao", "areaPrivativa", "areaComum", "areaTotal", "observacoes"]))
    case "calculoAvaliacao" =>
      JObj(Blank(["areaTotal", "valorUnitario", "valorTotal"])
           ["metodologia" := JStr("Método Comparativo Direto de Dados de Mercado")]
           ["enquadramentoNormas" := JStr("ABNT NBR 14.653 - Avaliação de Bens")])
    case "relatorioFotografico" => JObj(Blank(["consideracoesGerais"]))
    case "pesquisaMercado" => JObj(Blank(["resumo", "observacoes"]))
    case "mapaComparativo" => JObj(Blank(["latitude", "longitude", "apiKey"]))
    case "certidaoOnus" => JObj(Blank(["observacoes"]))
    case "espelhoCadastral" => JObj(Blank(["observacoes"]))
    case "rodape" =>
      JObj(Blank(["responsavelTecnico", "registroProfissional", "assinaturaDigital", "validadeLaudo"]))
    case _ => JStr("")
  }

  /** `defaultDados()`: the skeleton of a report's data. */
  function Defaults(today: string): (r: J)
    ensures r.JObj? && r.fields.Keys == set k | k in SectionNames
    ensures forall k :: k in r.fields ==> Flat(r.fields[k])
  {
    JObj(map k | k in SectionNames :: Section(k, today))
  }

  lemma FlatHasNoArray(j: J, p: seq<string>)
    requires Flat(j)
    ensures NoArrayOnPath(j, p)
  {
    if |p| > 1 && j.JObj? && p[0] in j.fields {
      assert j.fields[p[0]].JStr?;
    }
  }

  /** The skeleton holds no array, so no path into it meets one. */
  lemma DefaultsHaveNoArrays(today: string, p: seq<string>)
    ensures NoArrayOnPath(Defaults(today), p)
  {
    var d := Defaults(today);
    if |p| > 1 && p[0] in d.fields {
      FlatHasNoArray(d.fields[p[0]], p[1..]);
    }
  }

  /** A local-storage entry as `JSON.parse` leaves it: unparsable, or a value. */
  datatype Cached = Garbled | Snapshot(parsed: J)

  /**
   * Restoring does nothing when there is no entry (or it is empty), when it does
   * not parse, and when it parses to `null` (reading `parsed.dados` throws).
   */
  predicate RestoreAborts(cache: Option<Cached>) {
    cache.None? || cache.value.Garbled? || cache.value.parsed.JNull?
  }

  /** `parsed.dados || {}`: a value without that property yields `{}`. */
  function CachedDados(parsed: J): (d: J)
    ensures parsed.JObj? && "dados" in parsed.fields && !Falsy(parsed.fields["dados"]) ==>
      d == parsed.fields["dados"]
    ensures !parsed.JObj? || "dados" !in parsed.fields || Falsy(parsed.fields["dados"]) ==>
      d == EmptyObject
  {
    OrEmptyObject(if parsed.JObj? then FieldOf(parsed.fields, "dados") else None)
  }

  /** The form data after `restaurarDoLocalStorage`, given the data before it. */
  function RestoredDados(today: string, current: J, cache: Option<Cached>): (r: J)
    ensures RestoreAborts(cache) ==> r == current
    ensures !RestoreAborts(cache) ==>
      r.JObj? && Defaults(today).fields.Keys <= r.fields.Keys
  {
    if RestoreAborts(cache) then current
    else Merge(Defaults(today), CachedDados(cache.value.parsed))
  }

  /** `parsed[key]` when the entry parsed to an object holding an array there. */
  function CachedList(cache: Option<Cached>, key: string): (l: Option<seq<J>>)
    ensures l.Some? ==> !RestoreAborts(cache)
    ensures l.Some? <==>
      cache.Some? && cache.value.Snapshot? && cache.value.parsed.JObj? &&
      key in cache.value.parsed.fields && cache.value.parsed.fields[key].JArr?
    ensures l.Some? ==> cache.value.parsed.fields[key] == JArr(l.value)
  {
    if cache.Some? && cache.value.Snapshot? && cache.value.parsed.JObj? && key in cache.value.parsed.fields
       && cache.value.parsed.fields[key].JArr?
    then Some(cache.value.parsed.fields[key].items)
    else None
  }

  /** A list after `restaurarDoLocalStorage`: the cached one only if it really is an array. */
  function RestoredList(current: seq<J>, cache: Option<Cached>, key: string): (r: seq<J>)
    ensures RestoreAborts(cache) ==> r == current
    ensures CachedList(cache, key).Some? ==> r == CachedList(cache, key).value
    ensures CachedList(cache, key).None? ==> r == current
  {
    if RestoreAborts(cache) then current
    else
      var p := cache.value.parsed;
      if p.JObj? && key in p.fields && p.fields[key].JArr? then p.fields[key].items else current
  }

  /** The entry `salvarLocalmente` writes: the data, both lists and a time stamp. */
  function LocalSnapshot(dados: J, areas: seq<J>, comparativos: seq<J>, atualizadoEm: string): (r: J)
    ensures !RestoreAborts(Some(Snapshot(r)))
    ensures CachedList(Some(Snapshot(r)), "areas") == Some(areas)
    ensures CachedList(Some(Snapshot(r)), "comparativos") == Some(comparativos)
    ensures !Falsy(dados) ==> CachedDados(r) == dados
    ensures Falsy(dados) ==> CachedDados(r) == EmptyObject
  {
    JObj(map["dados" := dados, "areas" := JArr(areas), "comparativos" := JArr(comparativos),
             "atualizadoEm" := JStr(atualizadoEm)])
  }

  /**
   * Restoring keeps every path of the skeleton, provided the cached data keeps
   * the skeleton's shape (an object wherever the skeleton has a section object).
   */
  lemma RestoreKeepsSkeleton(today: string, current: J, cache: Option<Cached>, p: seq<string>)
    requires Lookup(Defaults(today), p).Some?
    requires RestoreAborts(cache) ==> Lookup(current, p).Some?
    requires !RestoreAborts(cache) ==> Conforms(Defaults(today), CachedDados(cache.value.parsed))
    ensures Lookup(RestoredDados(today, current, cache), p).Some?
  {
    if !RestoreAborts(cache) {
      MergeKeepsTargetPaths(Defaults(today), CachedDados(cache.value.parsed), p);
    }
  }

  /** A snapshot holding an object under `dados` restores that object merged into the skeleton. */
  lemma RestoreFromSnapshot(today: string, current: J, parsed: J)
    requires parsed.JObj? && "dados" in parsed.fields && parsed.fields["dados"].JObj?
    ensures RestoredDados(today, current, Some(Snapshot(parsed))) == Merge(Defaults(today), parsed.fields["dados"])
  {
    assert CachedDados(parsed) == parsed.fields["dados"];
  }

  /** A value the cache holds at a path (anything but an object) is what the form shows there after restoring. */
  lemma CachedLeafWins(today: string, current: J, parsed: J, p: seq<string>, v: J)
    requires parsed.JObj? && "dados" in parsed.fields && parsed.fields["dados"].JObj?
    requires |p| >= 1 && Lookup(parsed.fields["dados"], p) == Some(v) && !v.JObj?
    ensures Lookup(RestoredDados(today, current, Some(Snapshot(parsed))), p) == Some(v)
  {
    RestoreFromSnapshot(today, current, parsed);
    DefaultsHaveNoArrays(today, p);
    MergeSourceLeafWins(Defaults(today), parsed.fields["dados"], p, v);
  }

  /** A snapshot without data restores the bare skeleton. */
  lemma RestoreWithoutDados(today: string, current: J, parsed: J)
    requires !parsed.JNull?
    requires !parsed.JObj? || "dados" !in parsed.fields || Falsy(parsed.fields["dados"])
    ensures RestoredDados(today, current, Some(Snapshot(parsed))) == Defaults(today)
  {
    var d := Defaults(today);
    var r := Merge(d, EmptyObject);
    assert r.fields.Keys == d.fields.Keys;
    assert forall k :: k in d.fields ==> r.fields[k] == d.fields[k];
    assert r.fields == d.fields;
  }

  /**
   * Saving the restored data locally and restoring it again gives the same
   * data: the snapshot of a restored state is a fixed point of restoring.
   */
  lemma RestoreOwnSnapshot(today: string, current: J, x: J, areas: seq<J>, comparativos: seq<J>, stamp: string)
    requires x.JObj?
    ensures RestoredDados(today, current,
              Some(Snapshot(LocalSnapshot(Merge(Defaults(today), x), areas, comparativos, stamp))))
         == Merge(Defaults(today), x)
  {
    var dados := Merge(Defaults(today), x);
    RestoreFromSnapshot(today, current, LocalSnapshot(dados, areas, comparativos, stamp));
    MergeAbsorb(Defaults(today), x);
  }

  /** The lists of a local snapshot come back as they were saved, whatever the form held. */
  lemma RestoreOwnLists(dados: J, areas: seq<J>, comparativos: seq<J>, stamp: string, current: seq<J>)
    ensures RestoredList(current, Some(Snapshot(LocalSnapshot(dados, areas, comparativos, stamp))), "areas") == areas
    ensures RestoredList(current, Some(Snapshot(LocalSnapshot(dados, areas, comparativos, stamp))), "comparativos")
         == comparativos
  {
    var snapshot := LocalSnapshot(dados, areas, comparativos, stamp);
    assert snapshot.fields["areas"] == JArr(areas);
    assert snapshot.fields["comparativos"] == JArr(comparativos);
  }

  /** The report being edited, as `avaliacaoAtual` records it. */
  datatype ReportRef = ReportRef(id: int, controle: string, ano: int)

  /** The server's answer to `GET /api/avaliacoes/:id`: the report row, its parsed data and its child rows. */
  datatype ServerReport = ServerReport(
    id: int, controle: string, ano: int, dados: J,
    areas: seq<map<string, J>>, comparativos: seq<map<string, J>>,
    fotos: seq<Foto>, documentos: seq<Documento>)

  /** `{ ...row }` for every row. */
  function RowObjects(rows: seq<map<string, J>>): (r: seq<J>)
    ensures |r| == |rows| && forall i :: 0 <= i < |rows| ==> r[i] == JObj(rows[i])
  {
    seq(|rows|, i requires 0 <= i < |rows| => JObj(rows[i]))
  }

  function NormalizedFoto(f: Foto): Foto {
    f.(caminho := FormEdits.NormalizeSlashes(f.caminho))
  }

  function NormalizedDocumento(d: Documento): Documento {
    d.(caminho := FormEdits.NormalizeSlashes(d.caminho))
  }

  /** The photos with their paths written with forward slashes, everything else as it was. */
  function NormalizedFotos(fotos: seq<Foto>): (r: seq<Foto>)
    ensures |r| == |fotos|
    ensures forall i :: 0 <= i < |fotos| ==>
      r[i].id == fotos[i].id && r[i].legenda == fotos[i].legenda && r[i].ordem == fotos[i].ordem &&
      r[i].caminho == FormEdits.NormalizeSlashes(fotos[i].caminho) && '\\' !in r[i].caminho
  {
    seq(|fotos|, i requires 0 <= i < |fotos| => NormalizedFoto(fotos[i]))
  }

  /** The documents with their paths written with forward slashes, everything else as it was. */
  function NormalizedDocumentos(documentos: seq<Documento>): (r: seq<Documento>)
    ensures |r| == |documentos|
    ensures forall i :: 0 <= i < |documentos| ==>
      r[i].id == documentos[i].id && r[i].tipo == documentos[i].tipo &&
      r[i].nomeOriginal == documentos[i].nomeOriginal &&
      r[i].caminho == FormEdits.NormalizeSlashes(documentos[i].caminho) && '\\' !in r[i].caminho
  {
    seq(|documentos|, i requires 0 <= i < |documentos| => NormalizedDocumento(documentos[i]))
  }

  function FotoId(f: Foto): int { f.id }

  function DocumentoId(d: Documento): int { d.id }

  /** The form's data and lists: the module-level variables of the client. */
  class FormState {
    var atual: Option<ReportRef>
    var dados: J
    var areas: seq<J>
    var comparativos: seq<J>
    var fotos: seq<Foto>
    var documentos: seq<Documento>

    /** The state when the page loads: no report, the skeleton, empty lists. */
    constructor (today: string)
      ensures atual == None && dados == Defaults(today)
      ensures areas == [] && comparativos == [] && fotos == [] && documentos == []
    {
      atual := None;
      dados := Defaults(today);
      areas := [];
      comparativos := [];
      fotos := [];
      documentos := [];
    }

    /**
     * `setValue(path, value)`: write `value` at the dotted path, creating
     * missing intermediates as `{}`. `ok` is false where the code throws a
     * `TypeError`; a throw comes before any intermediate is created, so the
     * data is then unchanged.
     */
    method SetValue(path: string, value: J) returns (ok: bool)
      requires NoArrayOnPath(dados, Text.Split(path, '.'))
      modifies this`dados
      ensures ok <==> SetPath(old(dados), Text.Split(path, '.'), value).Ok?
      ensures ok ==> dados == SetPath(old(dados), Text.Split(path, '.'), value).value
      ensures !ok ==> dados == old(dados)
      ensures ok && ObjectsAlong(old(dados), Text.Split(path, '.')) ==>
        GetValue(dados, path) == if value == JNull then JStr("") else value
    {
      var keys := Text.Split(path, '.');
      var r := SetPath(dados, keys, value);
      if ObjectsAlong(dados, keys) {
        SetThenGet(dados, path, value);
      }
      if r.Ok? {
        dados := r.value;
        ok := true;
      } else {
        ok := false;
      }
    }

    /** `restaurarDoLocalStorage`: let the cached snapshot, if usable, override the data and the lists. */
    method Restore(today: string, cache: Option<Cached>)
      modifies this`dados, this`areas, this`comparativos
      ensures dados == RestoredDados(today, old(dados), cache)
      ensures areas == RestoredList(old(areas), cache, "areas")
      ensures comparativos == RestoredList(old(comparativos), cache, "comparativos")
    {
      if RestoreAborts(cache) {
        return;
      }
      var parsed := cache.value.parsed;
      dados := Merge(Defaults(today), CachedDados(parsed));
      if parsed.JObj? && "areas" in parsed.fields && parsed.fields["areas"].JArr? {
        areas := parsed.fields["areas"].items;
      }
      if parsed.JObj? && "comparativos" in parsed.fields && parsed.fields["comparativos"].JArr? {
        comparativos := parsed.fields["comparativos"].items;
      }
    }

    /**
     * The state-building part of `carregarAvaliacao`: the server's data merged
     * into the skeleton, copies of its rows, paths with forward slashes, and
     * then the local cache restored over it.
     */
    method Load(report: ServerReport, today: string, cache: Option<Cached>)
      modifies this`atual, this`dados, this`areas, this`comparativos, this`fotos, this`documentos
      ensures atual == Some(ReportRef(report.id, report.controle, report.ano))
      ensures dados == RestoredDados(today, Merge(Defaults(today), OrEmptyObject(Some(report.dados))), cache)
      ensures areas == RestoredList(RowObjects(report.areas), cache, "areas")
      ensures comparativos == RestoredList(RowObjects(report.comparativos), cache, "comparativos")
      ensures fotos == NormalizedFotos(report.fotos)
      ensures documentos == NormalizedDocumentos(report.documentos)
    {
      atual := Some(ReportRef(report.id, report.controle, report.ano));
      dados := Merge(Defaults(today), OrEmptyObject(Some(report.dados)));
      areas := RowObjects(report.areas);
      comparativos := RowObjects(report.comparativos);
      fotos := NormalizedFotos(report.fotos);
      documentos := NormalizedDocumentos(report.documentos);
      Restore(today, cache);
    }

    /** The `onload` of `importarAreasCsv`: push the area of every line with a description, in order. */
    method ImportAreas(text: string)
      modifies this`areas
      ensures areas == old(areas) + FormEdits.ImportedAreas(FormEdits.Lines(text))
    {
      var lines := FormEdits.Lines(text);
      var i := 0;
      while i < |lines|
        invariant 0 <= i <= |lines|
        invariant areas == old(areas) + FormEdits.ImportedAreas(lines[..i])
      {
        var area := FormEdits.AreaFromLine(lines[i]);
        ghost var done := FormEdits.ImportedAreas(lines[..i]);
        FormEdits.ImportedAreasStep(lines, i);
        if area.Some? {
          areas := areas + [area.value];
          assert areas == old(areas) + (done + [area.value]);
        } else {
          assert FormEdits.ImportedAreas(lines[..i + 1]) == done;
        }
        i := i + 1;
      }
      assert lines[..i] == lines;
    }

    /** The area table's remove button: `areas.splice(idx, 1)`. */
    method RemoveArea(index: int)
      modifies this`areas
      ensures areas == FormEdits.RemoveAt(old(areas), index)
    {
      areas := FormEdits.RemoveAt(areas, index);
    }

    /** The comparables table's remove button: `comparativos.splice(idx, 1)`. */
    method RemoveComparativo(index: int)
      modifies this`comparativos
      ensures comparativos == FormEdits.RemoveAt(old(comparativos), index)
    {
      comparativos := FormEdits.RemoveAt(comparativos, index);
    }

    /** After `DELETE /api/fotos/:id`: drop every photo with that id, whatever the server answered. */
    method RemoveFoto(id: int)
      modifies this`fotos
      ensures fotos == WithoutId(old(fotos), id, FotoId)
    {
      fotos := WithoutId(fotos, id, FotoId);
    }

    /** After `DELETE /api/documentos/:id`: drop every document with that id. */
    method RemoveDocumento(id: int)
      modifies this`documentos
      ensures documentos == WithoutId(old(documentos), id, DocumentoId)
    {
      documentos := WithoutId(documentos, id, DocumentoId);
    }

    /** The end of `uploadFotos`: append the server's new photos with forward-slash paths. */
    method AddUploadedFotos(uploaded: seq<Foto>)
      modifies this`fotos
      ensures fotos == old(fotos) + NormalizedFotos(uploaded)
    {
      fotos := fotos + NormalizedFotos(uploaded);
    }

    /** The end of `uploadDocumento`: push the server's new document with a forward-slash path. */
    method AddUploadedDocumento(documento: Documento)
      modifies this`documentos
      ensures documentos == old(documentos) + [NormalizedDocumento(documento)]
    {
      documentos := documentos + [NormalizedDocumento(documento)];
    }
  }

  /**
   * An imported area, once saved, stores each of its first five parts under
   * the matching column, and null for a part that is missing or empty.
   */
  lemma ImportedAreaStored(line: string)
    requires FormEdits.AreaFromLine(line).Some?
    ensures var parts := Text.Split(line, ';');
      var stored := Tables.ColumnValues(Tables.AreaColumns, FormEdits.AreaFromLine(line).value);
      forall i :: 0 <= i < |Tables.AreaColumns| ==>
        stored[i] == if i < |parts| && parts[i] != "" then JStr(parts[i]) else JNull
  {
    var parts := Text.Split(line, ';');
    var area := FormEdits.AreaFromLine(line).value;
    var stored := Tables.ColumnValues(Tables.AreaColumns, area);
    assert Tables.AreaColumns == FormEdits.AreaFieldNames;
    forall i | 0 <= i < |Tables.AreaColumns|
      ensures stored[i] == if i < |parts| && parts[i] != "" then JStr(parts[i]) else JNull
    {
      var name := Tables.AreaColumns[i];
      assert name == FormEdits.AreaFieldNames[i];
      assert stored[i] == Tables.Stored(Tables.Field(area, name));
    }
  }
}
