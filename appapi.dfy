/** The request handlers of app.js: an ungated upsert into `inss_higienizado`, and delete
    and download by `nome_arquivo`. */
module AppApi {
  import opened Wrappers
  import opened Http
  import opened JsValues
  import opened Records

  /** POST /api/insert (app.js:39-122): INSERT ... ON DUPLICATE KEY UPDATE with the 32
      supplied values; a failing query answers 500 and writes nothing. */
  method Insert(records: RecordTable, inc: Incoming, storageFails: bool)
    returns (status: Status, outcome: Option<Outcome>)
    requires records.Valid()
    modifies records
    ensures records.Valid()
    ensures storageFails ==> status == ServerError && outcome.None? && unchanged(records)
    ensures !storageFails ==>
      var w := UpsertInto(old(records.State()), records.naturalKeyUnique, inc);
      status == Ok && outcome == Some(w.outcome) && records.State() == w.store
  {
    if storageFails {
      return ServerError, None;
    }
    var o := records.Upsert(inc);
    status, outcome := Ok, Some(o);
  }

  /** DELETE /api/delete (app.js:125-137): 400 for a missing or empty `nome_arquivo`, else
      delete that file's rows and report how many. */
  method Delete(records: RecordTable, nomeArquivo: Option<string>) returns (status: Status, affected: nat)
    requires records.Valid()
    modifies records
    ensures records.Valid() && records.nextId == old(records.nextId)
    ensures !PresentText(nomeArquivo) ==> status == BadRequest && affected == 0 && unchanged(records)
    ensures PresentText(nomeArquivo) ==>
      && status == Ok
      && records.rows == Remove(old(records.rows), FileIs(nomeArquivo.value))
      && affected == |Select(old(records.rows), FileIs(nomeArquivo.value))|
  {
    match RequiredText(nomeArquivo)
    case None =>
      return BadRequest, 0;
    case Some(name) =>
      affected := records.DeleteWhere(FileIs(name));
      status := Ok;
  }

  /** GET /api/download (app.js:140-152): 400 for a missing or empty `nome_arquivo`, else
      that file's rows. */
  method Download(records: RecordTable, nomeArquivo: Option<string>) returns (status: Status, found: seq<Row>)
    ensures !PresentText(nomeArquivo) ==> status == BadRequest && found == []
    ensures PresentText(nomeArquivo) ==>
      && status == Ok && found == Select(records.rows, FileIs(nomeArquivo.value))
      && forall i :: 0 <= i < |found| ==> found[i].prov.nomeArquivo == nomeArquivo
  {
    match RequiredText(nomeArquivo)
    case None =>
      return BadRequest, [];
    case Some(name) =>
      found := records.SelectWhere(FileIs(name));
      status := Ok;
  }
}
