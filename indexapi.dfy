/** The request handlers of index.js over the two tables: the admin grant endpoints behind
    `checkAuthIp2`, `/api/limit`, the record endpoints behind `checkAuthIp` (insert with
    duplicate-on-conflict, delete and download by `nome_arquivo`) and the nightly
    retention sweep. Database driver failures are not modelled, except a failing insert
    into `inss_higienizado`, given as `storageFails`. */
module IndexApi {
  import opened Wrappers
  import opened Http
  import opened JsValues
  import opened ClientIp
  import opened Grants
  import opened Records

  /** The `disbursementBankAccount` object of the provider's answer. */
  datatype BankAccount = BankAccount(bank: Cell, branch: Cell, number: Cell, digit: Cell)

  /** The fields index.js reads from the benefit-inquiry provider's JSON answer. */
  datatype ProviderData = ProviderData(
    id: Option<nat>,
    benefitNumber: Cell,
    documentNumber: Cell,
    name: Cell,
    state: Cell,
    alimony: Cell,
    birthDate: Cell,
    blockType: Cell,
    grantDate: Cell,
    creditType: Cell,
    benefitCardLimit: Cell,
    benefitCardBalance: Cell,
    benefitStatus: Cell,
    benefitEndDate: Cell,
    consignedCardLimit: Cell,
    consignedCardBalance: Cell,
    consignedCreditBalance: Cell,
    maxTotalBalance: Cell,
    usedTotalBalance: Cell,
    availableTotalBalance: Cell,
    queryDate: Cell,
    queryReturnDate: Cell,
    queryReturnTime: Cell,
    legalRepresentativeName: Cell,
    disbursementBankAccount: Option<BankAccount>,
    numberOfPortabilities: Cell)

  /** The fields of the `/api/insert` body that index.js reads. */
  datatype InsertRequest = InsertRequest(numeroDocumento: Cell, numeroBeneficio: Cell, prov: Provenance)

  // ---------------------------------------------------------------------------------------
  // The write policy of `/api/insert`

  /** `numero_documento = ? AND numero_beneficio = ?`: a NULL parameter matches nothing. */
  predicate SameRecord(r: Row, numeroDocumento: Cell, numeroBeneficio: Cell): (b: bool)
    ensures numeroDocumento.None? || numeroBeneficio.None? ==> !b
    ensures b ==> r.numeroDocumento.Some? && r.numeroBeneficio.Some?
  {
    numeroDocumento.Some? && numeroBeneficio.Some?
    && r.numeroDocumento == numeroDocumento && r.numeroBeneficio == numeroBeneficio
  }

  /** The row `SELECT * ... LIMIT 1` returns (index.js:251-263). With no ORDER BY, InnoDB
      reads in primary-key order (an index on the two columns lists equal entries in
      primary-key order too), so it is the matching row with the smallest id. Ids come from
      the requests as well as from the counter, so that need not be the first in the table. */
  function FindExisting(rows: seq<Row>, numeroDocumento: Cell, numeroBeneficio: Cell): (k: Option<nat>)
    ensures k.None? <==> forall i :: 0 <= i < |rows| ==> !SameRecord(rows[i], numeroDocumento, numeroBeneficio)
    ensures k.Some? ==> k.value < |rows| && SameRecord(rows[k.value], numeroDocumento, numeroBeneficio)
    ensures k.Some? ==> forall i :: 0 <= i < |rows| && SameRecord(rows[i], numeroDocumento, numeroBeneficio) ==>
      rows[k.value].id <= rows[i].id
  {
    if rows == [] then None
    else
      var rest := FindExisting(rows[1..], numeroDocumento, numeroBeneficio);
      if rest.None? then
        if SameRecord(rows[0], numeroDocumento, numeroBeneficio) then Some(0) else None
      else if SameRecord(rows[0], numeroDocumento, numeroBeneficio) && rows[0].id <= rows[rest.value + 1].id then
        Some(0)
      else
        Some(rest.value + 1)
  }

  /** Two copies of a record stored under explicit ids 5 and then 3: the lookup returns
      the later row, the one with id 3. */
  lemma FindExistingPrefersSmallerId(a: Row, b: Row, numeroDocumento: Cell, numeroBeneficio: Cell)
    requires a.id == 5 && b.id == 3
    requires SameRecord(a, numeroDocumento, numeroBeneficio) && SameRecord(b, numeroDocumento, numeroBeneficio)
    ensures FindExisting([a, b], numeroDocumento, numeroBeneficio) == Some(1)
  {
    assert [a, b][1..] == [b];
  }

  /** `newRecord` (index.js:264-296): the 28 stored fields of `existing`, fresh provenance from
      the request, and no id (the duplicate gets the next auto-increment id). */
  function CloneWithProvenance(existing: Row, prov: Provenance): (inc: Incoming)
    ensures inc.id.None?
    ensures inc.numeroBeneficio == existing.numeroBeneficio && inc.numeroDocumento == existing.numeroDocumento
    ensures inc.body == existing.body
    ensures inc.prov == prov
  {
    Incoming(None, existing.numeroBeneficio, existing.numeroDocumento, existing.body, prov)
  }

  /** The bank columns: NULL when the provider sent no `disbursementBankAccount`. */
  function BankCells(a: Option<BankAccount>): (cells: (Cell, Cell, Cell, Cell))
    ensures a.None? ==> cells == (None, None, None, None)
    ensures a.Some? ==> cells == (a.value.bank, a.value.branch, a.value.number, a.value.digit)
  {
    match a
    case None => (None, None, None, None)
    case Some(acc) => (acc.bank, acc.branch, acc.number, acc.digit)
  }

  /** The INSERT parameters built from the provider's answer (index.js:381-414): the
      provider's id and key, its fields column by column, and the request's provenance. */
  function FromProvider(p: ProviderData, prov: Provenance): (inc: Incoming)
    ensures inc.id == p.id
    ensures inc.numeroBeneficio == p.benefitNumber && inc.numeroDocumento == p.documentNumber
    ensures inc.prov == prov
    ensures && inc.body.nome == p.name && inc.body.estado == p.state && inc.body.pensao == p.alimony
            && inc.body.dataNascimento == p.birthDate && inc.body.tipoBloqueio == p.blockType
            && inc.body.dataConcessao == p.grantDate && inc.body.tipoCredito == p.creditType
            && inc.body.limiteCartaoBeneficio == p.benefitCardLimit
            && inc.body.saldoCartaoBeneficio == p.benefitCardBalance
            && inc.body.statusBeneficio == p.benefitStatus && inc.body.dataFimBeneficio == p.benefitEndDate
            && inc.body.limiteCartaoConsignado == p.consignedCardLimit
            && inc.body.saldoCartaoConsignado == p.consignedCardBalance
            && inc.body.saldoCreditoConsignado == p.consignedCreditBalance
            && inc.body.saldoTotalMaximo == p.maxTotalBalance
            && inc.body.saldoTotalUtilizado == p.usedTotalBalance
            && inc.body.saldoTotalDisponivel == p.availableTotalBalance
            && inc.body.dataConsulta == p.queryDate && inc.body.dataRetornoConsulta == p.queryReturnDate
            && inc.body.tempoRetornoConsulta == p.queryReturnTime
            && inc.body.nomeRepresentanteLegal == p.legalRepresentativeName
            && inc.body.numeroPortabilidades == p.numberOfPortabilities
    ensures p.disbursementBankAccount.None? ==>
      inc.body.bancoDesembolso.None? && inc.body.agenciaDesembolso.None?
      && inc.body.numeroContaDesembolso.None? && inc.body.digitoContaDesembolso.None?
    ensures p.disbursementBankAccount.Some? ==>
      var a := p.disbursementBankAccount.value;
      inc.body.bancoDesembolso == a.bank && inc.body.agenciaDesembolso == a.branch
      && inc.body.numeroContaDesembolso == a.number && inc.body.digitoContaDesembolso == a.digit
  {
    var bank := BankCells(p.disbursementBankAccount);
    Incoming(
      p.id, p.benefitNumber, p.documentNumber,
      Body(p.name, p.state, p.alimony, p.birthDate, p.blockType, p.grantDate, p.creditType,
           p.benefitCardLimit, p.benefitCardBalance, p.benefitStatus, p.benefitEndDate,
           p.consignedCardLimit, p.consignedCardBalance, p.consignedCreditBalance,
           p.maxTotalBalance, p.usedTotalBalance, p.availableTotalBalance,
           p.queryDate, p.queryReturnDate, p.queryReturnTime, p.legalRepresentativeName,
           bank.0, bank.1, bank.2, bank.3, p.numberOfPortabilities),
      prov)
  }

  /** What `/api/insert` will try to write: a clone of the known record, else the mapped
      provider answer; None when the record is unknown and the provider call failed. */
  function InsertPlan(rows: seq<Row>, req: InsertRequest, provider: Option<ProviderData>): (plan: Option<Incoming>)
    ensures FindExisting(rows, req.numeroDocumento, req.numeroBeneficio).Some? ==>
      plan == Some(CloneWithProvenance(rows[FindExisting(rows, req.numeroDocumento, req.numeroBeneficio).value], req.prov))
    ensures FindExisting(rows, req.numeroDocumento, req.numeroBeneficio).None? ==>
      (plan.None? <==> provider.None?)
    ensures FindExisting(rows, req.numeroDocumento, req.numeroBeneficio).None? && provider.Some? ==>
      plan == Some(FromProvider(provider.value, req.prov))
    ensures plan.Some? ==> plan.value.prov == req.prov
  {
    match FindExisting(rows, req.numeroDocumento, req.numeroBeneficio)
    case Some(k) => Some(CloneWithProvenance(rows[k], req.prov))
    case None =>
      match provider
      case None => None
      case Some(p) => Some(FromProvider(p, req.prov))
  }

  /** What the provider's error answer maps to: index.js does not check the HTTP status,
      so a JSON error body reaches the INSERT with every provider field undefined. */
  const ErrorAnswer: ProviderData := ProviderData(
    None, None, None, None, None, None, None, None, None, None, None, None, None,
    None, None, None, None, None, None, None, None, None, None, None, None, None)

  /** A row body with every column NULL. */
  const NullBody: Body := Body(
    None, None, None, None, None, None, None, None, None, None, None, None, None,
    None, None, None, None, None, None, None, None, None, None, None, None, None)

  /** An unknown record and a provider error answer: the INSERT still goes through and adds
      a row that is NULL but for its fresh id and the request's provenance. The write is not
      refused, so `PostInsert` answers 200 and consumes a query. */
  lemma ErrorAnswerStoresNullRow(s: Store, naturalKeyUnique: bool, req: InsertRequest)
    requires FindExisting(s.rows, req.numeroDocumento, req.numeroBeneficio).None?
    ensures InsertPlan(s.rows, req, Some(ErrorAnswer)) == Some(Incoming(None, None, None, NullBody, req.prov))
    ensures InsertInto(s, naturalKeyUnique, InsertPlan(s.rows, req, Some(ErrorAnswer)).value, false)
         == Write(Store(s.rows + [Row(s.nextId, None, None, NullBody, req.prov)], s.nextId + 1), Inserted(s.nextId))
  {
    var inc := Incoming(None, None, None, NullBody, req.prov);
    assert FromProvider(ErrorAnswer, req.prov) == inc;
    assert forall i :: 0 <= i < |s.rows| ==> !Conflicts(naturalKeyUnique, s.rows[i], inc);
  }

  /** A known record is never looked up again: the provider's answer plays no part. */
  lemma KnownRecordSkipsProvider(rows: seq<Row>, req: InsertRequest, p1: Option<ProviderData>, p2: Option<ProviderData>)
    requires FindExisting(rows, req.numeroDocumento, req.numeroBeneficio).Some?
    ensures InsertPlan(rows, req, p1) == InsertPlan(rows, req, p2)
    ensures InsertPlan(rows, req, p1).Some?
  {
  }

  /** Duplicate-on-conflict without a unique natural key: exactly one row is appended,
      carrying the next id, the known record's 28 stored fields and the request's
      provenance; the rows already stored are untouched. */
  lemma DuplicateAppendsClone(s: Store, req: InsertRequest, provider: Option<ProviderData>)
    requires FindExisting(s.rows, req.numeroDocumento, req.numeroBeneficio).Some?
    ensures var k := FindExisting(s.rows, req.numeroDocumento, req.numeroBeneficio).value;
      var existing := s.rows[k];
      InsertInto(s, false, InsertPlan(s.rows, req, provider).value, false)
      == Write(Store(s.rows + [Row(s.nextId, existing.numeroBeneficio, existing.numeroDocumento, existing.body, req.prov)],
                     s.nextId + 1),
               Inserted(s.nextId))
  {
    var k := FindExisting(s.rows, req.numeroDocumento, req.numeroBeneficio).value;
    var inc := CloneWithProvenance(s.rows[k], req.prov);
    assert forall i :: 0 <= i < |s.rows| ==> !Conflicts(false, s.rows[i], inc);
  }

  /** With the unique (`numero_beneficio`, `numero_documento`) key that app.js's upsert
      relies on, the duplicate branch can never write: its clone always clashes with the
      record it was copied from. */
  lemma DuplicateRejectedUnderNaturalKey(s: Store, req: InsertRequest, provider: Option<ProviderData>, storageFails: bool)
    requires FindExisting(s.rows, req.numeroDocumento, req.numeroBeneficio).Some?
    ensures InsertInto(s, true, InsertPlan(s.rows, req, provider).value, storageFails).outcome.Rejected?
  {
    var k := FindExisting(s.rows, req.numeroDocumento, req.numeroBeneficio).value;
    assert Conflicts(true, s.rows[k], InsertPlan(s.rows, req, provider).value);
  }

  // ---------------------------------------------------------------------------------------
  // Admin endpoints (behind checkAuthIp2)

  /** POST /api/auth-ips (index.js:90-133). */
  method PostAuthIps(grants: GrantTable, caller: Caller, ip: Option<string>, descricao: Option<string>,
                     vencimento: Option<int>, limite: BodyValue, now: int)
    returns (status: Status, insertId: Option<nat>)
    requires grants.Valid()
    modifies grants
    ensures grants.Valid()
    ensures !CheckAuthIp2(ResolveIp(caller)) ==>
      status == Forbidden && insertId.None? && unchanged(grants)
    ensures CheckAuthIp2(ResolveIp(caller)) && !(PresentText(ip) && vencimento.Some? && Truthy(limite)) ==>
      status == BadRequest && insertId.None? && unchanged(grants)
    ensures CheckAuthIp2(ResolveIp(caller)) && PresentText(ip) && vencimento.Some? && Truthy(limite) ==>
      && status == Ok
      && grants.State() == AfterGrant(old(grants.State()), ip.value, descricao, vencimento.value, ParseIntOrZero(limite), now)
      && insertId == (if FirstMatch(old(grants.rows), IpIs(ip.value)).None? then Some(old(grants.nextId)) else None)
  {
    if !CheckAuthIp2(ResolveIp(caller)) {
      return Forbidden, None;
    }
    if !(PresentText(ip) && vencimento.Some? && Truthy(limite)) {
      return BadRequest, None;
    }
    insertId := grants.GrantAccess(ip.value, descricao, vencimento.value, ParseIntOrZero(limite), now);
    status := Ok;
  }

  /** Nothing keeps a limit non-negative: the text "-5" passes the presence check and
      `parseInt`, and a first grant stores the limit -5. */
  lemma NegativeLimitIsStored(l: Ledger, ip: string, descricao: Option<string>, vencimento: int, now: int)
    requires FirstMatch(l.rows, IpIs(ip)).None?
    ensures Truthy(Text("-5")) && ParseIntOrZero(Text("-5")) == -5
    ensures var r := AfterGrant(l, ip, descricao, vencimento, ParseIntOrZero(Text("-5")), now);
      r.rows[|l.rows|].limiteConsultas == -5 && !NonNegativeLimits(r.rows)
  {
    ParseIntOrZeroOfText(-5);
    assert Decimal(-5) == "-5";
    var r := AfterGrant(l, ip, descricao, vencimento, -5, now);
    assert r.rows[|l.rows|].limiteConsultas < 0;
  }

  /** PUT /api/auth-ips/:id (index.js:136-162): no validation; 404 for an unknown id. */
  method PutAuthIps(grants: GrantTable, caller: Caller, id: int, ip: string, descricao: Option<string>,
                    vencimento: int, limite: BodyValue)
    returns (status: Status)
    requires grants.Valid()
    modifies grants
    ensures grants.Valid() && grants.nextId == old(grants.nextId)
    ensures !CheckAuthIp2(ResolveIp(caller)) ==> status == Forbidden && unchanged(grants)
    ensures CheckAuthIp2(ResolveIp(caller)) && FirstMatch(old(grants.rows), IdIs(id)).None? ==>
      status == NotFound && grants.rows == old(grants.rows)
    ensures CheckAuthIp2(ResolveIp(caller)) && FirstMatch(old(grants.rows), IdIs(id)).Some? ==>
      var k := FirstMatch(old(grants.rows), IdIs(id)).value;
      status == Ok
      && grants.rows == old(grants.rows)[k := Edited(old(grants.rows)[k], ip, descricao, vencimento, ParseIntOrZero(limite))]
  {
    if !CheckAuthIp2(ResolveIp(caller)) {
      return Forbidden;
    }
    var found := grants.Edit(id, ip, descricao, vencimento, ParseIntOrZero(limite));
    status := if found then Ok else NotFound;
  }

  /** DELETE /api/auth-ips/:id (index.js:165-177): 404 when no row was affected. */
  method DeleteAuthIps(grants: GrantTable, caller: Caller, id: int) returns (status: Status)
    requires grants.Valid()
    modifies grants
    ensures grants.Valid() && grants.nextId == old(grants.nextId)
    ensures !CheckAuthIp2(ResolveIp(caller)) ==> status == Forbidden && unchanged(grants)
    ensures CheckAuthIp2(ResolveIp(caller)) && FirstMatch(old(grants.rows), IdIs(id)).None? ==>
      status == NotFound && grants.rows == old(grants.rows)
    ensures CheckAuthIp2(ResolveIp(caller)) && FirstMatch(old(grants.rows), IdIs(id)).Some? ==>
      var k := FirstMatch(old(grants.rows), IdIs(id)).value;
      status == Ok && grants.rows == old(grants.rows)[..k] + old(grants.rows)[k + 1..]
  {
    if !CheckAuthIp2(ResolveIp(caller)) {
      return Forbidden;
    }
    var found := grants.Remove(id);
    status := if found then Ok else NotFound;
  }

  /** GET /api/auth-ips (index.js:68-87): every grant, highest id first, for admins only. */
  method GetAuthIps(grants: GrantTable, caller: Caller) returns (status: Status, list: seq<Grant>)
    requires grants.Valid()
    ensures status == Forbidden <==> !CheckAuthIp2(ResolveIp(caller))
    ensures status == Forbidden ==> list == []
    ensures status != Forbidden ==> status == Ok && multiset(list) == multiset(grants.rows)
    ensures forall i, j :: 0 <= i < j < |list| ==> list[i].id > list[j].id
  {
    if !CheckAuthIp2(ResolveIp(caller)) {
      return Forbidden, [];
    }
    list := grants.List();
    status := Ok;
  }

  /** GET /api/limit (index.js:180-196): no gate; the caller's remaining quota. */
  method GetLimit(grants: GrantTable, caller: Caller, today: int) returns (status: Status, limite: int)
    ensures status == Ok
    ensures limite == LimitSum(grants.rows, ResolveIp(caller), today)
  {
    limite := grants.Limit(ResolveIp(caller), today);
    status := Ok;
  }

  // ---------------------------------------------------------------------------------------
  // Record endpoints (behind checkAuthIp)

  /** POST /api/insert (index.js:246-433): gate, then clone-or-fetch, then insert, and
      only after a successful insert the quota decrement. */
  method PostInsert(grants: GrantTable, records: RecordTable, caller: Caller, req: InsertRequest,
                    provider: Option<ProviderData>, storageFails: bool, today: int)
    returns (status: Status, insertId: Option<nat>)
    requires grants.Valid() && records.Valid()
    modifies grants, records
    ensures grants.Valid() && records.Valid() && grants.nextId == old(grants.nextId)
    ensures !CheckAuthIp(old(grants.rows), ResolveIp(caller), today) ==>
      status == Forbidden && insertId.None? && unchanged(grants, records)
    ensures CheckAuthIp(old(grants.rows), ResolveIp(caller), today)
            && InsertPlan(old(records.rows), req, provider).None? ==>
      status == ServerError && insertId.None? && unchanged(grants, records)
    ensures CheckAuthIp(old(grants.rows), ResolveIp(caller), today)
            && InsertPlan(old(records.rows), req, provider).Some? ==>
      var w := InsertInto(old(records.State()), records.naturalKeyUnique,
                          InsertPlan(old(records.rows), req, provider).value, storageFails);
      && records.State() == w.store
      && (w.outcome.Rejected? ==> status == ServerError && insertId.None? && unchanged(grants))
      && (!w.outcome.Rejected? ==>
            && status == Ok && insertId == Some(w.outcome.id)
            && grants.rows == Decremented(old(grants.rows), ResolveIp(caller), today))
  {
    var ip := ResolveIp(caller);
    if !CheckAuthIp(grants.rows, ip, today) {
      return Forbidden, None;
    }
    var plan := InsertPlan(records.rows, req, provider);
    if plan.None? {
      return ServerError, None;
    }
    var outcome := records.Insert(plan.value, storageFails);
    if outcome.Rejected? {
      return ServerError, None;
    }
    grants.UpdateIpLimit(ip, today);
    status, insertId := Ok, Some(outcome.id);
  }

  /** DELETE /api/delete (index.js:438-450): gate, then 400 for a missing or empty
      `nome_arquivo`, else delete that file's rows and report how many. */
  method DeleteByFile(grants: GrantTable, records: RecordTable, caller: Caller, nomeArquivo: Option<string>, today: int)
    returns (status: Status, affected: nat)
    requires records.Valid()
    modifies records
    ensures records.Valid() && records.nextId == old(records.nextId)
    ensures !CheckAuthIp(grants.rows, ResolveIp(caller), today) ==>
      status == Forbidden && affected == 0 && unchanged(records)
    ensures CheckAuthIp(grants.rows, ResolveIp(caller), today) && !PresentText(nomeArquivo) ==>
      status == BadRequest && affected == 0 && unchanged(records)
    ensures CheckAuthIp(grants.rows, ResolveIp(caller), today) && PresentText(nomeArquivo) ==>
      && status == Ok
      && records.rows == Remove(old(records.rows), FileIs(nomeArquivo.value))
      && affected == |Select(old(records.rows), FileIs(nomeArquivo.value))|
  {
    if !CheckAuthIp(grants.rows, ResolveIp(caller), today) {
      return Forbidden, 0;
    }
    match RequiredText(nomeArquivo)
    case None =>
      return BadRequest, 0;
    case Some(name) =>
      affected := records.DeleteWhere(FileIs(name));
      status := Ok;
  }

  /** GET /api/download (index.js:453-465): gate, then 400 for a missing or empty
      `nome_arquivo`, else that file's rows. */
  method Download(grants: GrantTable, records: RecordTable, caller: Caller, nomeArquivo: Option<string>, today: int)
    returns (status: Status, found: seq<Row>)
    ensures !CheckAuthIp(grants.rows, ResolveIp(caller), today) ==> status == Forbidden && found == []
    ensures CheckAuthIp(grants.rows, ResolveIp(caller), today) && !PresentText(nomeArquivo) ==>
      status == BadRequest && found == []
    ensures CheckAuthIp(grants.rows, ResolveIp(caller), today) && PresentText(nomeArquivo) ==>
      status == Ok && found == Select(records.rows, FileIs(nomeArquivo.value))
  {
    if !CheckAuthIp(grants.rows, ResolveIp(caller), today) {
      return Forbidden, [];
    }
    match RequiredText(nomeArquivo)
    case None =>
      return BadRequest, [];
    case Some(name) =>
      found := records.SelectWhere(FileIs(name));
      status := Ok;
  }

  /** The nightly job (index.js:472-484): delete every row registered more than 30 days
      before `now`. */
  method RetentionSweep(records: RecordTable, now: int) returns (affected: nat)
    requires records.Valid()
    modifies records
    ensures records.Valid() && records.nextId == old(records.nextId)
    ensures records.rows == Remove(old(records.rows), RetentionCondition(now))
    ensures affected == |Select(old(records.rows), RetentionCondition(now))|
  {
    affected := records.DeleteWhere(RetentionCondition(now));
  }
}
