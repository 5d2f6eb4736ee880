/**
 * The server's child tables as in-memory tables: the replace-all of a
 * report's areas or comparables on save (`salvarAreas`, `salvarComparativos`,
 * server.js:77-131), the photo and document inserts on upload
 * (server.js:346-409) and delete-by-id (server.js:411-441). Ids come from a
 * counter, as SQLite's AUTOINCREMENT gives them.
 */
module Tables {
  import opened Wrappers
  import opened Json
  import opened Records
  import Uploads

  const AreaColumns: seq<string> := ["descricao", "largura", "comprimento", "area", "tipo"]
  const ComparativoColumns: seq<string> :=
    ["endereco", "valor", "area", "link", "latitude", "longitude", "observacoes"]

  /** `x || null` for a request field that may be undefined. */
  function Stored(v: Option<J>): (r: J)
    ensures r == JNull || !Falsy(r)
    ensures v.Some? && !Falsy(v.value) ==> r == v.value
    ensures v.None? || Falsy(v.value) ==> r == JNull
  {
    if v.None? || Falsy(v.value) then JNull else v.value
  }

  /** `item[column]` for a request item that is not null (any other value has no such property). */
  function Field(item: J, column: string): Option<J> {
    if item.JObj? then FieldOf(item.fields, column) else None
  }

  /** The values bound to the insert's placeholders, one per column. */
  function ColumnValues(columns: seq<string>, item: J): (vs: seq<J>)
    ensures |vs| == |columns|
    ensures forall i :: 0 <= i < |columns| ==> vs[i] == Stored(Field(item, columns[i]))
  {
    seq(|columns|, i requires 0 <= i < |columns| => Stored(Field(item, columns[i])))
  }

  /** Every stored value is null or truthy: `x || null` never stores a falsy value. */
  ghost predicate Normalized(values: seq<J>) {
    forall i :: 0 <= i < |values| ==> values[i] == JNull || !Falsy(values[i])
  }

  /** A row of `areas` or `comparativos`: its id, its report and its column values. */
  datatype ChildRow = ChildRow(id: int, avaliacaoId: int, values: seq<J>)

  /** `SELECT * ... WHERE avaliacao_id = ?` (in insertion order). */
  function RowsOf(rows: seq<ChildRow>, avaliacaoId: int): (r: seq<ChildRow>)
    ensures forall i :: 0 <= i < |r| ==> r[i].avaliacaoId == avaliacaoId
  {
    if rows == [] then []
    else (if rows[0].avaliacaoId == avaliacaoId then [rows[0]] else []) + RowsOf(rows[1..], avaliacaoId)
  }

  /** What `DELETE ... WHERE avaliacao_id = ?` leaves. */
  function RowsNotOf(rows: seq<ChildRow>, avaliacaoId: int): (r: seq<ChildRow>)
    ensures forall i :: 0 <= i < |r| ==> r[i].avaliacaoId != avaliacaoId
  {
    if rows == [] then []
    else (if rows[0].avaliacaoId != avaliacaoId then [rows[0]] else []) + RowsNotOf(rows[1..], avaliacaoId)
  }

  /** The two `WHERE` clauses split a table: every row is selected by exactly one of them. */
  lemma {:induction false} RowsPartition(rows: seq<ChildRow>, avaliacaoId: int)
    ensures multiset(RowsOf(rows, avaliacaoId)) + multiset(RowsNotOf(rows, avaliacaoId)) == multiset(rows)
  {
    if rows != [] {
      RowsPartition(rows[1..], avaliacaoId);
      assert rows == [rows[0]] + rows[1..];
    }
  }

  /** The rows the `forEach` inserts for `items`, numbered from `firstId`. */
  function NewRows(firstId: int, avaliacaoId: int, columns: seq<string>, items: seq<J>): (r: seq<ChildRow>)
    ensures |r| == |items|
    ensures forall i :: 0 <= i < |r| ==> r[i].id == firstId + i && r[i].avaliacaoId == avaliacaoId
    ensures forall i :: 0 <= i < |r| ==> |r[i].values| == |columns| && Normalized(r[i].values)
    ensures forall i :: 0 <= i < |r| ==> r[i].values == ColumnValues(columns, items[i])
  {
    seq(|items|, i requires 0 <= i < |items| => ChildRow(firstId + i, avaliacaoId, ColumnValues(columns, items[i])))
  }

  /** How many leading items the `forEach` gets through before meeting `null` (where `area.descricao` throws). */
  function InsertedCount(items: seq<J>): (n: nat)
    ensures n <= |items|
    ensures forall i :: 0 <= i < n ==> items[i] != JNull
    ensures n < |items| ==> items[n] == JNull
  {
    if items == [] || items[0] == JNull then 0 else 1 + InsertedCount(items[1..])
  }

  lemma {:induction false} RowsOfAppend(a: seq<ChildRow>, b: seq<ChildRow>, id: int)
    ensures RowsOf(a + b, id) == RowsOf(a, id) + RowsOf(b, id)
  {
    if a == [] {
      assert a + b == b;
    } else {
      assert (a + b)[1..] == a[1..] + b;
      RowsOfAppend(a[1..], b, id);
    }
  }

  lemma {:induction false} RowsNotOfAppend(a: seq<ChildRow>, b: seq<ChildRow>, id: int)
    ensures RowsNotOf(a + b, id) == RowsNotOf(a, id) + RowsNotOf(b, id)
  {
    if a == [] {
      assert a + b == b;
    } else {
      assert (a + b)[1..] == a[1..] + b;
      RowsNotOfAppend(a[1..], b, id);
    }
  }

  lemma {:induction false} RowsOfAllMine(rows: seq<ChildRow>, id: int)
    requires forall i :: 0 <= i < |rows| ==> rows[i].avaliacaoId == id
    ensures RowsOf(rows, id) == rows
    ensures forall other :: other != id ==> RowsOf(rows, other) == []
  {
    if rows != [] {
      RowsOfAllMine(rows[1..], id);
      assert [rows[0]] + rows[1..] == rows;
    }
  }

  lemma {:induction false} RowsOfNone(rows: seq<ChildRow>, id: int)
    requires forall i :: 0 <= i < |rows| ==> rows[i].avaliacaoId != id
    ensures RowsOf(rows, id) == []
  {
    if rows != [] {
      RowsOfNone(rows[1..], id);
    }
  }

  lemma {:induction false} RowsOfSplit(rows: seq<ChildRow>, id: int, other: int)
    requires other != id
    ensures RowsOf(RowsNotOf(rows, id), other) == RowsOf(rows, other)
  {
    if rows != [] {
      RowsOfSplit(rows[1..], id, other);
      var head := if rows[0].avaliacaoId != id then [rows[0]] else [];
      RowsOfAppend(head, RowsNotOf(rows[1..], id), other);
    }
  }

  /**
   * After a replace, the report's rows are exactly the new rows, in order, and
   * every other report's rows are what they were.
   */
  lemma ReplaceReadsBack(rows: seq<ChildRow>, id: int, added: seq<ChildRow>, other: int)
    requires forall i :: 0 <= i < |added| ==> added[i].avaliacaoId == id
    ensures RowsOf(RowsNotOf(rows, id) + added, id) == added
    ensures other != id ==> RowsOf(RowsNotOf(rows, id) + added, other) == RowsOf(rows, other)
  {
    var kept := RowsNotOf(rows, id);
    RowsOfAppend(kept, added, id);
    RowsOfNone(kept, id);
    RowsOfAllMine(added, id);
    RowsOfAppend(kept, added, other);
    if other != id {
      RowsOfSplit(rows, id, other);
    }
  }

  /** The columns of a row object, as `SELECT *` hands it to the client. */
  function RowFields(columns: seq<string>, values: seq<J>): (m: map<string, J>)
    requires |columns| == |values|
    ensures m.Keys == set c | c in columns
  {
    if columns == [] then map[]
    else
      var rest := RowFields(columns[1..], values[1..]);
      assert (set c | c in columns) == (set c | c in columns[1..]) + {columns[0]};
      rest[columns[0] := values[0]]
  }

  /** A stored row as the JSON object the client receives and keeps (`{ ...area }`). */
  function RowObject(columns: seq<string>, row: ChildRow): (r: J)
    requires |columns| == |row.values|
    ensures r.JObj? && r.fields.Keys == (set c | c in columns) + {"id", "avaliacao_id"}
    ensures r.fields["id"] == JNum(row.id) && r.fields["avaliacao_id"] == JNum(row.avaliacaoId)
  {
    JObj(RowFields(columns, row.values)["id" := JNum(row.id)]["avaliacao_id" := JNum(row.avaliacaoId)])
  }

  ghost predicate Distinct(columns: seq<string>) {
    forall i, j :: 0 <= i < j < |columns| ==> columns[i] != columns[j]
  }

  lemma {:induction false} RowFieldsLookup(columns: seq<string>, values: seq<J>, i: int)
    requires |columns| == |values| && Distinct(columns) && 0 <= i < |columns|
    ensures columns[i] in RowFields(columns, values)
    ensures RowFields(columns, values)[columns[i]] == values[i]
  {
    if i > 0 {
      assert Distinct(columns[1..]) by {
        forall a, b | 0 <= a < b < |columns[1..]|
          ensures columns[1..][a] != columns[1..][b]
        {
          assert columns[1..][a] == columns[a + 1] && columns[1..][b] == columns[b + 1];
        }
      }
      RowFieldsLookup(columns[1..], values[1..], i - 1);
      assert columns[1..][i - 1] == columns[i] != columns[0];
    }
  }

  /**
   * A row the client loaded and sends back unchanged is stored with the same
   * values: loading and saving again is a fixed point of the table.
   */
  lemma ResaveIsStable(columns: seq<string>, row: ChildRow)
    requires Distinct(columns) && "id" !in columns && "avaliacao_id" !in columns
    requires |row.values| == |columns| && Normalized(row.values)
    ensures ColumnValues(columns, RowObject(columns, row)) == row.values
  {
    var item := RowObject(columns, row);
    forall i | 0 <= i < |columns|
      ensures ColumnValues(columns, item)[i] == row.values[i]
    {
      RowFieldsLookup(columns, row.values, i);
      assert columns[i] != "id" && columns[i] != "avaliacao_id";
      assert Field(item, columns[i]) == Some(row.values[i]);
    }
  }

  /** The area and comparable column lists are distinct names that do not clash with the row's own ids. */
  lemma ColumnListsAreProper()
    ensures Distinct(AreaColumns) && "id" !in AreaColumns && "avaliacao_id" !in AreaColumns
    ensures Distinct(ComparativoColumns) && "id" !in ComparativoColumns && "avaliacao_id" !in ComparativoColumns
  {
  }

  /** Ids strictly increase along the table and stay below the counter. */
  ghost predicate IdsBelow(ids: seq<int>, nextId: int) {
    (forall i, j :: 0 <= i < j < |ids| ==> ids[i] < ids[j]) &&
    (forall i :: 0 <= i < |ids| ==> ids[i] < nextId)
  }

  function ChildIds(rows: seq<ChildRow>): (ids: seq<int>)
    ensures |ids| == |rows| && forall i :: 0 <= i < |rows| ==> ids[i] == rows[i].id
  {
    seq(|rows|, i requires 0 <= i < |rows| => rows[i].id)
  }

  lemma {:induction false} RowsNotOfKeepsOrder(rows: seq<ChildRow>, id: int, nextId: int)
    requires IdsBelow(ChildIds(rows), nextId)
    ensures IdsBelow(ChildIds(RowsNotOf(rows, id)), nextId)
    ensures rows != [] ==> forall i :: 0 <= i < |RowsNotOf(rows, id)| ==> rows[0].id <= RowsNotOf(rows, id)[i].id
  {
    if rows != [] {
      var tail := rows[1..];
      assert IdsBelow(ChildIds(tail), nextId) by {
        assert forall i :: 0 <= i < |tail| ==> tail[i] == rows[i + 1];
      }
      RowsNotOfKeepsOrder(tail, id, nextId);
      var rest := RowsNotOf(tail, id);
      assert tail != [] ==> rows[0].id < tail[0].id by {
        if tail != [] {
          assert tail[0] == rows[1];
        }
      }
      var head := if rows[0].avaliacaoId != id then [rows[0]] else [];
      assert RowsNotOf(rows, id) == head + rest;
    }
  }

  lemma {:induction false} RowsNotOfKeepsWidth(rows: seq<ChildRow>, id: int, width: int)
    requires forall i :: 0 <= i < |rows| ==> |rows[i].values| == width && Normalized(rows[i].values)
    ensures forall i :: 0 <= i < |RowsNotOf(rows, id)| ==>
      |RowsNotOf(rows, id)[i].values| == width && Normalized(RowsNotOf(rows, id)[i].values)
  {
    if rows != [] {
      RowsNotOfKeepsWidth(rows[1..], id, width);
    }
  }

  lemma AppendNewRows(kept: seq<ChildRow>, firstId: int, avaliacaoId: int, columns: seq<string>, items: seq<J>)
    requires IdsBelow(ChildIds(kept), firstId)
    requires forall i :: 0 <= i < |kept| ==> |kept[i].values| == |columns| && Normalized(kept[i].values)
    ensures var rows := kept + NewRows(firstId, avaliacaoId, columns, items);
      IdsBelow(ChildIds(rows), firstId + |items|) &&
      forall i :: 0 <= i < |rows| ==> |rows[i].values| == |columns| && Normalized(rows[i].values)
  {
    var added := NewRows(firstId, avaliacaoId, columns, items);
    var rows := kept + added;
    assert forall i :: 0 <= i < |rows| ==> rows[i] == if i < |kept| then kept[i] else added[i - |kept|];
  }

  /** A table of `areas` or `comparativos` rows. */
  class ChildTable {
    const columns: seq<string>
    var rows: seq<ChildRow>
    var nextId: int

    ghost predicate Valid()
      reads this
    {
      IdsBelow(ChildIds(rows), nextId) &&
      forall i :: 0 <= i < |rows| ==> |rows[i].values| == |columns| && Normalized(rows[i].values)
    }

    constructor (columns: seq<string>)
      ensures Valid() && this.columns == columns && rows == [] && nextId == 1
    {
      this.columns := columns;
      rows := [];
      nextId := 1;
    }

    /**
     * `salvarAreas(avaliacaoId, items)` / `salvarComparativos`: delete the
     * report's rows, then insert one row per item in order, each falsy or
     * missing field stored as null. A null item throws in the middle of the
     * `forEach`: the rows inserted before it stay and `ok` is false.
     */
    method Replace(avaliacaoId: int, items: seq<J>) returns (ok: bool)
      requires Valid()
      modifies this`rows, this`nextId
      ensures Valid()
      ensures ok <==> InsertedCount(items) == |items|
      ensures nextId == old(nextId) + InsertedCount(items)
      ensures rows == RowsNotOf(old(rows), avaliacaoId)
                      + NewRows(old(nextId), avaliacaoId, columns, items[..InsertedCount(items)])
    {
      RowsNotOfKeepsOrder(rows, avaliacaoId, nextId);
      RowsNotOfKeepsWidth(rows, avaliacaoId, |columns|);
      rows := RowsNotOf(rows, avaliacaoId);
      ghost var kept := rows;
      ghost var firstId := nextId;
      var i := 0;
      while i < |items| && items[i] != JNull
        invariant 0 <= i <= |items|
        invariant forall j :: 0 <= j < i ==> items[j] != JNull
        invariant nextId == firstId + i
        invariant rows == kept + NewRows(firstId, avaliacaoId, columns, items[..i])
      {
        var row := ChildRow(nextId, avaliacaoId, ColumnValues(columns, items[i]));
        assert NewRows(firstId, avaliacaoId, columns, items[..i + 1])
            == NewRows(firstId, avaliacaoId, columns, items[..i]) + [row];
        rows := rows + [row];
        nextId := nextId + 1;
        i := i + 1;
      }
      assert i == InsertedCount(items);
      AppendNewRows(kept, firstId, avaliacaoId, columns, items[..i]);
      ok := i == |items|;
    }
  }

  /** A photo row with its report. */
  datatype StoredFoto = StoredFoto(avaliacaoId: int, foto: Foto)

  /** A document row with its report. */
  datatype StoredDocumento = StoredDocumento(avaliacaoId: int, documento: Documento)

  /** A file multer has stored: its original name and its path relative to the server root. */
  datatype UploadedFile = UploadedFile(originalname: string, caminho: string)

  /** The photos `/api/upload/fotos` inserts and returns for `files`, numbered from `firstId`. */
  function UploadedFotos(firstId: int, files: seq<UploadedFile>, body: map<string, string>): (r: seq<Foto>)
    ensures |r| == |files|
    ensures forall i :: 0 <= i < |r| ==>
      r[i].ordem == i && r[i].caminho == files[i].caminho && r[i].id == firstId + i
    ensures forall i :: 0 <= i < |r| ==>
      r[i].legenda == Uploads.Caption(body, i, files[i].originalname)
  {
    seq(|files|, i requires 0 <= i < |files| =>
      Foto(firstId + i, Uploads.Caption(body, i, files[i].originalname), files[i].caminho, i))
  }

  function FotoIds(rows: seq<StoredFoto>): (ids: seq<int>)
    ensures |ids| == |rows| && forall i :: 0 <= i < |rows| ==> ids[i] == rows[i].foto.id
  {
    seq(|rows|, i requires 0 <= i < |rows| => rows[i].foto.id)
  }

  function DocumentoIds(rows: seq<StoredDocumento>): (ids: seq<int>)
    ensures |ids| == |rows| && forall i :: 0 <= i < |rows| ==> ids[i] == rows[i].documento.id
  {
    seq(|rows|, i requires 0 <= i < |rows| => rows[i].documento.id)
  }

  function FotoIdOf(row: StoredFoto): int { row.foto.id }

  function DocumentoIdOf(row: StoredDocumento): int { row.documento.id }

  /** Dropping one entry keeps the ids increasing and below the counter. */
  lemma DropKeepsOrder(ids: seq<int>, k: int, nextId: int)
    requires 0 <= k < |ids| && IdsBelow(ids, nextId)
    ensures IdsBelow(ids[..k] + ids[k + 1..], nextId)
  {
    var r := ids[..k] + ids[k + 1..];
    assert forall i :: 0 <= i < |r| ==> r[i] == ids[if i < k then i else i + 1];
  }

  lemma IncreasingIdsAreUnique<T>(xs: seq<T>, idOf: T -> int, ids: seq<int>, nextId: int)
    requires IdsBelow(ids, nextId)
    requires |ids| == |xs| && forall i :: 0 <= i < |xs| ==> ids[i] == idOf(xs[i])
    ensures UniqueIds(xs, idOf)
  {
  }

  /** With increasing ids, `DELETE ... WHERE id = ?` removes exactly the row found at `k`. */
  lemma FotoIdsUnique(rows: seq<StoredFoto>, nextId: int)
    requires IdsBelow(FotoIds(rows), nextId)
    ensures UniqueIds(rows, FotoIdOf)
  {
    IncreasingIdsAreUnique(rows, FotoIdOf, FotoIds(rows), nextId);
  }

  lemma FotoDropKeepsOrder(rows: seq<StoredFoto>, k: int, nextId: int)
    requires IdsBelow(FotoIds(rows), nextId) && 0 <= k < |rows|
    ensures IdsBelow(FotoIds(rows[..k] + rows[k + 1..]), nextId)
  {
    var rest := rows[..k] + rows[k + 1..];
    var ids := FotoIds(rows);
    DropKeepsOrder(ids, k, nextId);
    assert forall i :: 0 <= i < |rest| ==> rest[i] == rows[if i < k then i else i + 1];
    assert FotoIds(rest) == ids[..k] + ids[k + 1..];
  }

  /** With increasing ids, `DELETE ... WHERE id = ?` removes exactly the row found at `k`. */
  lemma FotoDeleteRow(rows: seq<StoredFoto>, id: int, k: int, nextId: int)
    requires IdsBelow(FotoIds(rows), nextId)
    requires 0 <= k < |rows| && rows[k].foto.id == id
    ensures WithoutId(rows, id, FotoIdOf) == rows[..k] + rows[k + 1..]
    ensures IdsBelow(FotoIds(rows[..k] + rows[k + 1..]), nextId)
  {
    FotoIdsUnique(rows, nextId);
    WithoutIdRemovesOne(rows, id, FotoIdOf, k);
    FotoDropKeepsOrder(rows, k, nextId);
  }

  lemma DocumentoIdsUnique(rows: seq<StoredDocumento>, nextId: int)
    requires IdsBelow(DocumentoIds(rows), nextId)
    ensures UniqueIds(rows, DocumentoIdOf)
  {
    IncreasingIdsAreUnique(rows, DocumentoIdOf, DocumentoIds(rows), nextId);
  }

  lemma DocumentoDropKeepsOrder(rows: seq<StoredDocumento>, k: int, nextId: int)
    requires IdsBelow(DocumentoIds(rows), nextId) && 0 <= k < |rows|
    ensures IdsBelow(DocumentoIds(rows[..k] + rows[k + 1..]), nextId)
  {
    var rest := rows[..k] + rows[k + 1..];
    var ids := DocumentoIds(rows);
    DropKeepsOrder(ids, k, nextId);
    assert forall i :: 0 <= i < |rest| ==> rest[i] == rows[if i < k then i else i + 1];
    assert DocumentoIds(rest) == ids[..k] + ids[k + 1..];
  }

  /** With increasing ids, `DELETE ... WHERE id = ?` removes exactly the row found at `k`. */
  lemma DocumentoDeleteRow(rows: seq<StoredDocumento>, id: int, k: int, nextId: int)
    requires IdsBelow(DocumentoIds(rows), nextId)
    requires 0 <= k < |rows| && rows[k].documento.id == id
    ensures WithoutId(rows, id, DocumentoIdOf) == rows[..k] + rows[k + 1..]
    ensures IdsBelow(DocumentoIds(rows[..k] + rows[k + 1..]), nextId)
  {
    DocumentoIdsUnique(rows, nextId);
    WithoutIdRemovesOne(rows, id, DocumentoIdOf, k);
    DocumentoDropKeepsOrder(rows, k, nextId);
  }

  /** The `photos` table. */
  class FotoTable {
    var rows: seq<StoredFoto>
    var nextId: int

    ghost predicate Valid()
      reads this
    {
      IdsBelow(FotoIds(rows), nextId)
    }

    constructor ()
      ensures Valid() && rows == [] && nextId == 1
    {
      rows := [];
      nextId := 1;
    }

    /**
     * `POST /api/upload/fotos` once multer has stored `files`: without a report
     * id, a 400 and no row; otherwise row `i` gets `ordem = i` and the caption
     * `legenda_i`, or the original file name when that field is empty or absent.
     */
    method Upload(avaliacaoId: Option<int>, files: seq<UploadedFile>, body: map<string, string>)
      returns (r: Result<seq<Foto>, Uploads.UploadError>)
      requires Valid()
      modifies this`rows, this`nextId
      ensures Valid()
      ensures avaliacaoId.None? ==>
        r == Err(Uploads.MissingReportId) && rows == old(rows) && nextId == old(nextId)
      ensures avaliacaoId.Some? ==>
        r == Ok(UploadedFotos(old(nextId), files, body)) && nextId == old(nextId) + |files| &&
        rows == old(rows) + seq(|files|, i requires 0 <= i < |files| =>
                                  StoredFoto(avaliacaoId.value, UploadedFotos(old(nextId), files, body)[i]))
    {
      if avaliacaoId.None? {
        return Err(Uploads.MissingReportId);
      }
      ghost var before := rows;
      ghost var firstId := nextId;
      ghost var all := UploadedFotos(firstId, files, body);
      var fotos: seq<Foto> := [];
      var index := 0;
      while index < |files|
        invariant 0 <= index <= |files|
        invariant nextId == firstId + index
        invariant fotos == all[..index]
        invariant rows == before + seq(index, i requires 0 <= i < index => StoredFoto(avaliacaoId.value, all[i]))
        invariant Valid()
      {
        var foto := Foto(nextId, Uploads.Caption(body, index, files[index].originalname), files[index].caminho, index);
        assert foto == all[index];
        rows := rows + [StoredFoto(avaliacaoId.value, foto)];
        fotos := fotos + [foto];
        nextId := nextId + 1;
        index := index + 1;
      }
      assert fotos == all;
      r := Ok(fotos);
    }

    /**
     * `DELETE /api/fotos/:id`: not found leaves the table as it is; otherwise
     * exactly that row goes, and its stored path is the file to unlink.
     */
    method Delete(id: int) returns (found: bool, unlink: Option<string>)
      requires Valid()
      modifies this`rows
      ensures Valid()
      ensures found <==> exists k :: 0 <= k < |old(rows)| && old(rows)[k].foto.id == id
      ensures !found ==> rows == old(rows) && unlink == None
      ensures found ==> exists k :: 0 <= k < |old(rows)| && old(rows)[k].foto.id == id &&
                          rows == old(rows)[..k] + old(rows)[k + 1..] &&
                          unlink == Some(old(rows)[k].foto.caminho)
    {
      var k := 0;
      while k < |rows| && rows[k].foto.id != id
        invariant 0 <= k <= |rows|
        invariant forall j :: 0 <= j < k ==> rows[j].foto.id != id
      {
        k := k + 1;
      }
      if k == |rows| {
        return false, None;
      }
      FotoDeleteRow(rows, id, k, nextId);
      found, unlink := true, Some(rows[k].foto.caminho);
      rows := WithoutId(rows, id, FotoIdOf);
    }
  }

  /** `tipo || 'anexo'`: the document kind stored when the form leaves it empty. */
  function DocumentKind(tipo: Option<string>): (r: string)
    ensures r != ""
    ensures tipo.Some? && tipo.value != "" ==> r == tipo.value
    ensures tipo.None? || tipo.value == "" ==> r == "anexo"
  {
    if tipo.Some? && tipo.value != "" then tipo.value else "anexo"
  }

  /** The `documentos` table. */
  class DocumentoTable {
    var rows: seq<StoredDocumento>
    var nextId: int

    ghost predicate Valid()
      reads this
    {
      IdsBelow(DocumentoIds(rows), nextId)
    }

    constructor ()
      ensures Valid() && rows == [] && nextId == 1
    {
      rows := [];
      nextId := 1;
    }

    /**
     * `POST /api/upload/documentos`: a missing report id and then a missing
     * file are 400s that insert nothing; otherwise one row with the kind
     * defaulted to "anexo", the original file name and the stored path.
     */
    method Upload(avaliacaoId: Option<int>, file: Option<UploadedFile>, tipo: Option<string>)
      returns (r: Result<Documento, Uploads.UploadError>)
      requires Valid()
      modifies this`rows, this`nextId
      ensures Valid()
      ensures avaliacaoId.None? ==> r == Err(Uploads.MissingReportId)
      ensures avaliacaoId.Some? && file.None? ==> r == Err(Uploads.MissingFile)
      ensures r.Err? ==> rows == old(rows) && nextId == old(nextId)
      ensures avaliacaoId.Some? && file.Some? ==>
        r == Ok(Documento(old(nextId), DocumentKind(tipo), file.value.originalname, file.value.caminho)) &&
        rows == old(rows) + [StoredDocumento(avaliacaoId.value, r.value)] &&
        nextId == old(nextId) + 1
    {
      if avaliacaoId.None? {
        return Err(Uploads.MissingReportId);
      }
      if file.None? {
        return Err(Uploads.MissingFile);
      }
      var documento := Documento(nextId, DocumentKind(tipo), file.value.originalname, file.value.caminho);
      rows := rows + [StoredDocumento(avaliacaoId.value, documento)];
      nextId := nextId + 1;
      r := Ok(documento);
    }

    /**
     * `DELETE /api/documentos/:id`: not found leaves the table as it is;
     * otherwise exactly that row goes, and its stored path is the file to unlink.
     */
    method Delete(id: int) returns (found: bool, unlink: Option<string>)
      requires Valid()
      modifies this`rows
      ensures Valid()
      ensures found <==> exists k :: 0 <= k < |old(rows)| && old(rows)[k].documento.id == id
      ensures !found ==> rows == old(rows) && unlink == None
      ensures found ==> exists k :: 0 <= k < |old(rows)| && old(rows)[k].documento.id == id &&
                          rows == old(rows)[..k] + old(rows)[k + 1..] &&
                          unlink == Some(old(rows)[k].documento.caminho)
    {
      var k := 0;
      while k < |rows| && rows[k].documento.id != id
        invariant 0 <= k <= |rows|
        invariant forall j :: 0 <= j < k ==> rows[j].documento.id != id
      {
        k := k + 1;
      }
      if k == |rows| {
        return false, None;
      }
      DocumentoDeleteRow(rows, id, k, nextId);
      found, unlink := true, Some(rows[k].documento.caminho);
      rows := WithoutId(rows, id, DocumentoIdOf);
    }
  }
}
