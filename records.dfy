/** The benefit-record table `inss_higienizado` shared by index.js and app.js: its rows,
    the plain INSERT and the INSERT ... ON DUPLICATE KEY UPDATE the two files issue, and
    the statements that select or delete rows by `nome_arquivo` or by age. */
module Records {
  import opened Wrappers

  /** A nullable column value: None is SQL NULL. */
  type Cell = Option<string>

  /** The 26 descriptive and financial columns: everything but the id, the natural key
      (`numero_beneficio`, `numero_documento`) and the three provenance columns. */
  datatype Body = Body(
    nome: Cell,
    estado: Cell,
    pensao: Cell,
    dataNascimento: Cell,
    tipoBloqueio: Cell,
    dataConcessao: Cell,
    tipoCredito: Cell,
    limiteCartaoBeneficio: Cell,
    saldoCartaoBeneficio: Cell,
    statusBeneficio: Cell,
    dataFimBeneficio: Cell,
    limiteCartaoConsignado: Cell,
    saldoCartaoConsignado: Cell,
    saldoCreditoConsignado: Cell,
    saldoTotalMaximo: Cell,
    saldoTotalUtilizado: Cell,
    saldoTotalDisponivel: Cell,
    dataConsulta: Cell,
    dataRetornoConsulta: Cell,
    tempoRetornoConsulta: Cell,
    nomeRepresentanteLegal: Cell,
    bancoDesembolso: Cell,
    agenciaDesembolso: Cell,
    numeroContaDesembolso: Cell,
    digitoContaDesembolso: Cell,
    numeroPortabilidades: Cell)

  /** Who stored a row, when (seconds; None when NULL) and from which file. */
  datatype Provenance = Provenance(ipOrigem: Cell, dataHoraRegistro: Option<int>, nomeArquivo: Cell)

  /** One stored row: all 32 columns. */
  datatype Row = Row(id: nat, numeroBeneficio: Cell, numeroDocumento: Cell, body: Body, prov: Provenance)

  /** The values of an INSERT: like a row, but the id may be left to auto-increment. */
  datatype Incoming = Incoming(id: Option<nat>, numeroBeneficio: Cell, numeroDocumento: Cell,
                               body: Body, prov: Provenance)

  /** The table together with its next auto-increment id. */
  datatype Store = Store(rows: seq<Row>, nextId: nat)

  /** What a write did: added a row with this id, overwrote the row at this position, or
      was refused by the database (a key clash or a storage failure). */
  datatype Outcome = Inserted(id: nat) | Updated(index: nat) | Rejected

  datatype Write = Write(store: Store, outcome: Outcome)

  // ---------------------------------------------------------------------------------------
  // Unique keys

  /** The primary key `id` is always unique. `naturalKeyUnique` says whether the table also
      has a unique index on (`numero_beneficio`, `numero_documento`), which app.js's upsert
      relies on; the schema itself is not part of this model. A NULL in either column
      never clashes. */
  predicate Clash(naturalKeyUnique: bool, a: Row, b: Row) {
    a.id == b.id
    || (naturalKeyUnique && a.numeroBeneficio.Some? && a.numeroDocumento.Some?
        && a.numeroBeneficio == b.numeroBeneficio && a.numeroDocumento == b.numeroDocumento)
  }

  /** No two rows clash and every id is below the next auto-increment id. */
  predicate ValidStore(s: Store, naturalKeyUnique: bool) {
    && (forall i, j :: 0 <= i < j < |s.rows| ==> !Clash(naturalKeyUnique, s.rows[i], s.rows[j]))
    && (forall i :: 0 <= i < |s.rows| ==> s.rows[i].id < s.nextId)
  }

  /** The incoming values supply the id an existing row holds. */
  predicate IdClash(r: Row, inc: Incoming) {
    inc.id.Some? && r.id == inc.id.value
  }

  /** Whether the incoming values hit a unique key of an existing row. With
      `naturalKeyUnique` false only the primary key counts, so
      `FirstConflict(rows, false, inc)` is the row holding the supplied id. */
  predicate Conflicts(naturalKeyUnique: bool, r: Row, inc: Incoming): (c: bool)
    ensures inc.id.None? && (inc.numeroBeneficio.None? || inc.numeroDocumento.None?) ==> !c
    ensures !naturalKeyUnique ==> (c <==> IdClash(r, inc))
  {
    IdClash(r, inc)
    || (naturalKeyUnique && inc.numeroBeneficio.Some? && inc.numeroDocumento.Some?
        && r.numeroBeneficio == inc.numeroBeneficio && r.numeroDocumento == inc.numeroDocumento)
  }

  /** The first row the incoming values conflict with. */
  function FirstConflict(rows: seq<Row>, naturalKeyUnique: bool, inc: Incoming): (k: Option<nat>)
    ensures k.None? <==> forall i :: 0 <= i < |rows| ==> !Conflicts(naturalKeyUnique, rows[i], inc)
    ensures k.Some? ==> k.value < |rows| && Conflicts(naturalKeyUnique, rows[k.value], inc)
    ensures k.Some? ==> forall i :: 0 <= i < k.value ==> !Conflicts(naturalKeyUnique, rows[i], inc)
  {
    if rows == [] then None
    else if Conflicts(naturalKeyUnique, rows[0], inc) then Some(0)
    else match FirstConflict(rows[1..], naturalKeyUnique, inc)
      case None => None
      case Some(j) => Some(j + 1)
  }

  /** The id a new row gets: the one supplied, or the next auto-increment value. */
  function AssignedId(s: Store, inc: Incoming): nat {
    if inc.id.Some? then inc.id.value else s.nextId
  }

  /** The auto-increment counter moves past every id the table holds. */
  function NextIdAfter(s: Store, id: nat): (n: nat)
    ensures n > id && n >= s.nextId
  {
    if id + 1 > s.nextId then id + 1 else s.nextId
  }

  /** The counter after a statement that stored no new row. An id the counter would have
      supplied is spent all the same: InnoDB does not hand back the value of an insert
      refused for a duplicate key, and INSERT ... ON DUPLICATE KEY UPDATE draws its value
      before it finds the duplicate. A supplied id draws nothing. */
  function SpentCounter(s: Store, inc: Incoming): (n: nat)
    ensures inc.id.None? ==> n == s.nextId + 1
    ensures inc.id.Some? ==> n == s.nextId
  {
    if inc.id.None? then s.nextId + 1 else s.nextId
  }

  /** The row ON DUPLICATE KEY UPDATE overwrites. InnoDB checks the primary key before the
      secondary unique index, so a row holding the supplied id wins; failing that, the
      first row clashing on the natural key. */
  function UpsertTarget(rows: seq<Row>, naturalKeyUnique: bool, inc: Incoming): (k: Option<nat>)
    ensures k.None? <==> forall i :: 0 <= i < |rows| ==> !Conflicts(naturalKeyUnique, rows[i], inc)
    ensures k.Some? ==> k.value < |rows| && Conflicts(naturalKeyUnique, rows[k.value], inc)
    ensures k.Some? && (exists i :: 0 <= i < |rows| && IdClash(rows[i], inc)) ==> IdClash(rows[k.value], inc)
    ensures (forall i :: 0 <= i < |rows| ==> !IdClash(rows[i], inc)) ==> k == FirstConflict(rows, naturalKeyUnique, inc)
  {
    match FirstConflict(rows, false, inc)
    case Some(k) => Some(k)
    case None => FirstConflict(rows, naturalKeyUnique, inc)
  }

  /** The row an INSERT adds: every supplied value in its column. */
  function NewRow(id: nat, inc: Incoming): Row {
    Row(id, inc.numeroBeneficio, inc.numeroDocumento, inc.body, inc.prov)
  }

  /** ON DUPLICATE KEY UPDATE (app.js:51-80): the 29 listed columns take the incoming
      values; `id`, `numero_beneficio` and `numero_documento` keep the stored ones. */
  function Overwritten(r: Row, inc: Incoming): (u: Row)
    ensures u.id == r.id && u.numeroBeneficio == r.numeroBeneficio && u.numeroDocumento == r.numeroDocumento
    ensures u.body == inc.body && u.prov == inc.prov
  {
    r.(body := inc.body, prov := inc.prov)
  }

  /** Two incoming value sets aimed at the same key columns. */
  predicate SameKey(a: Incoming, b: Incoming) {
    a.id == b.id && a.numeroBeneficio == b.numeroBeneficio && a.numeroDocumento == b.numeroDocumento
  }

  /** The incoming values carry a key that finds the row they were stored in: an explicit
      id, or a complete natural key the table keeps unique. */
  predicate Keyed(naturalKeyUnique: bool, inc: Incoming) {
    inc.id.Some? || (naturalKeyUnique && inc.numeroBeneficio.Some? && inc.numeroDocumento.Some?)
  }

  // ---------------------------------------------------------------------------------------
  // INSERT and INSERT ... ON DUPLICATE KEY UPDATE

  /** A plain INSERT: refused on a storage failure or a unique-key clash, otherwise exactly
      one row with every supplied value is added at the end. A refused statement writes no
      row; a clash still spends an id the counter supplied, a storage failure (the statement
      never reaching the table) spends nothing. */
  function InsertInto(s: Store, naturalKeyUnique: bool, inc: Incoming, storageFails: bool): (w: Write)
    ensures w.outcome.Rejected? <==>
      storageFails || exists i :: 0 <= i < |s.rows| && Conflicts(naturalKeyUnique, s.rows[i], inc)
    ensures w.outcome.Rejected? ==> w.store.rows == s.rows
    ensures storageFails ==> w.store == s
    ensures w.outcome.Rejected? && !storageFails ==> w.store.nextId == SpentCounter(s, inc)
    ensures w.outcome.Updated? == false
    ensures w.outcome.Inserted? ==>
      && w.outcome.id == AssignedId(s, inc)
      && w.store.rows == s.rows + [NewRow(w.outcome.id, inc)]
      && w.store.nextId == NextIdAfter(s, w.outcome.id)
  {
    if storageFails then Write(s, Rejected)
    else if FirstConflict(s.rows, naturalKeyUnique, inc).Some? then Write(Store(s.rows, SpentCounter(s, inc)), Rejected)
    else
      var id := AssignedId(s, inc);
      Write(Store(s.rows + [NewRow(id, inc)], NextIdAfter(s, id)), Inserted(id))
  }

  /** app.js's upsert: on a conflict the target row is overwritten and no row is added;
      otherwise exactly one row holding all 32 supplied values is added. */
  function UpsertInto(s: Store, naturalKeyUnique: bool, inc: Incoming): (w: Write)
    ensures w.outcome.Rejected? == false
    ensures w.outcome.Updated? <==> exists i :: 0 <= i < |s.rows| && Conflicts(naturalKeyUnique, s.rows[i], inc)
    ensures w.outcome.Updated? ==>
      var k := w.outcome.index;
      && k < |s.rows| && Conflicts(naturalKeyUnique, s.rows[k], inc)
      && ((exists i :: 0 <= i < |s.rows| && IdClash(s.rows[i], inc)) ==> IdClash(s.rows[k], inc))
      && ((forall i :: 0 <= i < |s.rows| ==> !IdClash(s.rows[i], inc)) ==>
            forall i :: 0 <= i < k ==> !Conflicts(naturalKeyUnique, s.rows[i], inc))
      && w.store == Store(s.rows[k := Overwritten(s.rows[k], inc)], SpentCounter(s, inc))
    ensures w.outcome.Inserted? ==>
      && w.outcome.id == AssignedId(s, inc)
      && w.store.rows == s.rows + [NewRow(w.outcome.id, inc)]
      && w.store.nextId == NextIdAfter(s, w.outcome.id)
  {
    match UpsertTarget(s.rows, naturalKeyUnique, inc)
    case Some(k) => Write(Store(s.rows[k := Overwritten(s.rows[k], inc)], SpentCounter(s, inc)), Updated(k))
    case None =>
      var id := AssignedId(s, inc);
      Write(Store(s.rows + [NewRow(id, inc)], NextIdAfter(s, id)), Inserted(id))
  }

  /** A row added where nothing conflicts clashes with no stored row. */
  lemma NewRowClashesWithNothing(s: Store, naturalKeyUnique: bool, inc: Incoming)
    requires ValidStore(s, naturalKeyUnique)
    requires forall i :: 0 <= i < |s.rows| ==> !Conflicts(naturalKeyUnique, s.rows[i], inc)
    ensures forall i :: 0 <= i < |s.rows| ==> !Clash(naturalKeyUnique, s.rows[i], NewRow(AssignedId(s, inc), inc))
  {
  }

  /** A plain INSERT keeps every unique key unique. */
  lemma InsertIntoIsValid(s: Store, naturalKeyUnique: bool, inc: Incoming, storageFails: bool)
    requires ValidStore(s, naturalKeyUnique)
    ensures ValidStore(InsertInto(s, naturalKeyUnique, inc, storageFails).store, naturalKeyUnique)
  {
    if !InsertInto(s, naturalKeyUnique, inc, storageFails).outcome.Rejected? {
      NewRowClashesWithNothing(s, naturalKeyUnique, inc);
    }
  }

  /** The upsert keeps every unique key unique. */
  lemma UpsertIntoIsValid(s: Store, naturalKeyUnique: bool, inc: Incoming)
    requires ValidStore(s, naturalKeyUnique)
    ensures ValidStore(UpsertInto(s, naturalKeyUnique, inc).store, naturalKeyUnique)
  {
    var w := UpsertInto(s, naturalKeyUnique, inc);
    match w.outcome
    case Updated(k) =>
      var r := w.store.rows;
      forall i, j | 0 <= i < j < |r| ensures !Clash(naturalKeyUnique, r[i], r[j]) {
        assert Clash(naturalKeyUnique, r[i], r[j]) == Clash(naturalKeyUnique, s.rows[i], s.rows[j]);
      }
    case Inserted(_) =>
      NewRowClashesWithNothing(s, naturalKeyUnique, inc);
  }

  /** Overwriting keeps a row's key columns, so a row conflicts with the same incoming
      values before and after any upsert. */
  lemma ConflictsSurviveOverwrite(rows: seq<Row>, k: nat, naturalKeyUnique: bool, inc: Incoming, inc': Incoming)
    requires k < |rows|
    ensures FirstConflict(rows[k := Overwritten(rows[k], inc)], naturalKeyUnique, inc')
         == FirstConflict(rows, naturalKeyUnique, inc')
  {
    var r := rows[k := Overwritten(rows[k], inc)];
    assert forall i :: 0 <= i < |rows| ==>
      Conflicts(naturalKeyUnique, r[i], inc') == Conflicts(naturalKeyUnique, rows[i], inc');
    var a := FirstConflict(r, naturalKeyUnique, inc');
    var b := FirstConflict(rows, naturalKeyUnique, inc');
    if a.Some? && b.Some? {
      assert !(a.value < b.value) && !(b.value < a.value);
    }
  }

  /** Two incoming value sets with the same key columns find the same first conflict. */
  lemma {:induction false} FirstConflictOfSameKey(rows: seq<Row>, naturalKeyUnique: bool, a: Incoming, b: Incoming)
    requires SameKey(a, b)
    ensures FirstConflict(rows, naturalKeyUnique, a) == FirstConflict(rows, naturalKeyUnique, b)
  {
    if rows != [] {
      FirstConflictOfSameKey(rows[1..], naturalKeyUnique, a, b);
    }
  }

  /** The upsert's target is the same for two value sets with the same key columns, and an
      overwrite does not move it. */
  lemma TargetOfSameKey(rows: seq<Row>, k: nat, naturalKeyUnique: bool, a: Incoming, b: Incoming)
    requires SameKey(a, b) && k < |rows|
    ensures UpsertTarget(rows, naturalKeyUnique, a) == UpsertTarget(rows, naturalKeyUnique, b)
    ensures UpsertTarget(rows[k := Overwritten(rows[k], a)], naturalKeyUnique, b) == UpsertTarget(rows, naturalKeyUnique, b)
  {
    FirstConflictOfSameKey(rows, false, a, b);
    FirstConflictOfSameKey(rows, naturalKeyUnique, a, b);
    ConflictsSurviveOverwrite(rows, k, false, a, b);
    ConflictsSurviveOverwrite(rows, k, naturalKeyUnique, a, b);
  }

  /** A row holding the supplied id is the one overwritten, even when an earlier row holds
      the supplied natural key. */
  lemma IdClashWinsOverKeyClash(a: Row, b: Row, inc: Incoming)
    requires a.id != b.id && inc.id == Some(b.id)
    requires a.numeroBeneficio.Some? && a.numeroDocumento.Some?
    requires inc.numeroBeneficio == a.numeroBeneficio && inc.numeroDocumento == a.numeroDocumento
    ensures UpsertInto(Store([a, b], b.id + 1), true, inc).outcome == Updated(1)
  {
    assert !IdClash(a, inc) && IdClash(b, inc);
    assert FirstConflict([a, b], false, inc) == Some(1) by {
      assert [a, b][1..] == [b];
    }
  }

  /** Last write wins when the first upsert overwrote row `k`: the rows are those the
      second upsert alone leaves; the counter is one further on when the ids come from it. */
  lemma LastWriteWinsOnUpdate(s: Store, naturalKeyUnique: bool, first: Incoming, second: Incoming, k: nat)
    requires SameKey(first, second)
    requires UpsertTarget(s.rows, naturalKeyUnique, first) == Some(k)
    ensures var twice := UpsertInto(UpsertInto(s, naturalKeyUnique, first).store, naturalKeyUnique, second).store;
      var alone := UpsertInto(s, naturalKeyUnique, second).store;
      twice.rows == alone.rows && twice.nextId == alone.nextId + (if first.id.None? then 1 else 0)
  {
    var once := UpsertInto(s, naturalKeyUnique, first).store;
    assert once.rows == s.rows[k := Overwritten(s.rows[k], first)];
    TargetOfSameKey(s.rows, k, naturalKeyUnique, first, second);
    assert once.rows[k := Overwritten(once.rows[k], second)] == s.rows[k := Overwritten(s.rows[k], second)];
  }

  /** Last write wins when the first upsert added a row. */
  lemma LastWriteWinsOnInsert(s: Store, naturalKeyUnique: bool, first: Incoming, second: Incoming)
    requires SameKey(first, second) && Keyed(naturalKeyUnique, first)
    requires UpsertTarget(s.rows, naturalKeyUnique, first).None?
    ensures var twice := UpsertInto(UpsertInto(s, naturalKeyUnique, first).store, naturalKeyUnique, second).store;
      var alone := UpsertInto(s, naturalKeyUnique, second).store;
      twice.rows == alone.rows && twice.nextId == alone.nextId + (if first.id.None? then 1 else 0)
  {
    var id := AssignedId(s, first);
    var n := |s.rows|;
    var once := UpsertInto(s, naturalKeyUnique, first).store;
    assert once.rows == s.rows + [NewRow(id, first)];
    assert forall i :: 0 <= i < n ==> !Conflicts(naturalKeyUnique, s.rows[i], second) by {
      assert forall i :: 0 <= i < n ==>
        Conflicts(naturalKeyUnique, s.rows[i], first) == Conflicts(naturalKeyUnique, s.rows[i], second);
    }
    assert UpsertTarget(s.rows, naturalKeyUnique, second).None?;
    assert forall i :: 0 <= i < n ==> once.rows[i] == s.rows[i];
    assert Conflicts(naturalKeyUnique, once.rows[n], second);
    if second.id.Some? {
      assert IdClash(once.rows[n], second);
      assert FirstConflict(once.rows, false, second) == Some(n);
    } else {
      assert forall i :: 0 <= i < |once.rows| ==> !IdClash(once.rows[i], second);
      assert FirstConflict(once.rows, naturalKeyUnique, second) == Some(n);
    }
    assert UpsertTarget(once.rows, naturalKeyUnique, second) == Some(n);
    assert once.rows[n := Overwritten(once.rows[n], second)] == s.rows + [NewRow(id, second)];
  }

  /** Last write wins: two upserts aimed at the same key, one that finds the row it was
      stored in, leave the rows the second upsert alone would have. So two upserts on one
      key leave one row, holding the second call's values. Only the auto-increment counter
      tells the two apart, when the first drew an id from it. */
  lemma UpsertLastWriteWins(s: Store, naturalKeyUnique: bool, first: Incoming, second: Incoming)
    requires SameKey(first, second) && Keyed(naturalKeyUnique, first)
    ensures var twice := UpsertInto(UpsertInto(s, naturalKeyUnique, first).store, naturalKeyUnique, second).store;
      var alone := UpsertInto(s, naturalKeyUnique, second).store;
      twice.rows == alone.rows && twice.nextId == alone.nextId + (if first.id.None? then 1 else 0)
  {
    match UpsertTarget(s.rows, naturalKeyUnique, first)
    case Some(k) => LastWriteWinsOnUpdate(s, naturalKeyUnique, first, second, k);
    case None => LastWriteWinsOnInsert(s, naturalKeyUnique, first, second);
  }

  /** Repeating an upsert that carries a key leaves the rows as they were; with an explicit
      id it changes nothing at all, without one it spends one more counter value. */
  lemma UpsertIdempotent(s: Store, naturalKeyUnique: bool, inc: Incoming)
    requires Keyed(naturalKeyUnique, inc)
    ensures var once := UpsertInto(s, naturalKeyUnique, inc).store;
      var twice := UpsertInto(once, naturalKeyUnique, inc).store;
      twice.rows == once.rows && twice.nextId == once.nextId + (if inc.id.None? then 1 else 0)
    ensures inc.id.Some? ==>
      UpsertInto(UpsertInto(s, naturalKeyUnique, inc).store, naturalKeyUnique, inc).store
      == UpsertInto(s, naturalKeyUnique, inc).store
  {
    UpsertLastWriteWins(s, naturalKeyUnique, inc, inc);
  }

  /** Without such a key the upsert is a plain insert: repeating it adds a second row. */
  lemma UnkeyedUpsertAddsEveryTime(s: Store, naturalKeyUnique: bool, inc: Incoming)
    requires !Keyed(naturalKeyUnique, inc)
    ensures var twice := UpsertInto(UpsertInto(s, naturalKeyUnique, inc).store, naturalKeyUnique, inc).store;
      |twice.rows| == |s.rows| + 2
  {
  }

  // ---------------------------------------------------------------------------------------
  // WHERE clauses on `nome_arquivo` and `data_hora_registro`

  /** A WHERE condition of the select and delete statements. */
  datatype Where =
    | FileIs(name: string)            // nome_arquivo = ?
    | RegisteredBefore(cutoff: int)   // data_hora_registro < ?

  /** The condition is TRUE for the row (NULL compares as unknown, never TRUE). */
  predicate Holds(w: Where, r: Row): (h: bool)
    ensures w.FileIs? && r.prov.nomeArquivo.None? ==> !h
    ensures w.RegisteredBefore? && r.prov.dataHoraRegistro.None? ==> !h
    ensures w.FileIs? && h ==> r.prov.nomeArquivo.value == w.name
  {
    match w
    case FileIs(name) => r.prov.nomeArquivo == Some(name)
    case RegisteredBefore(cutoff) => r.prov.dataHoraRegistro.Some? && r.prov.dataHoraRegistro.value < cutoff
  }

  /** `SELECT * ... WHERE w`: the rows the condition holds for, in table order. */
  function Select(rows: seq<Row>, w: Where): (r: seq<Row>)
    ensures |r| <= |rows|
    ensures forall i :: 0 <= i < |r| ==> Holds(w, r[i])
  {
    if rows == [] then []
    else
      assert rows == [rows[0]] + rows[1..];
      (if Holds(w, rows[0]) then [rows[0]] else []) + Select(rows[1..], w)
  }

  /** The rows `DELETE ... WHERE w` keeps, in table order. */
  function Remove(rows: seq<Row>, w: Where): (r: seq<Row>)
    ensures |r| <= |rows|
    ensures forall i :: 0 <= i < |r| ==> !Holds(w, r[i])
  {
    if rows == [] then []
    else
      assert rows == [rows[0]] + rows[1..];
      (if Holds(w, rows[0]) then [] else [rows[0]]) + Remove(rows[1..], w)
  }

  /** A delete removes exactly the selected rows: together the two account for every row
      of the table, each once. */
  lemma SelectRemovePartition(rows: seq<Row>, w: Where)
    ensures multiset(Select(rows, w)) + multiset(Remove(rows, w)) == multiset(rows)
    ensures |Select(rows, w)| + |Remove(rows, w)| == |rows|
  {
    SelectRemoveMultiset(rows, w);
    assert |multiset(Select(rows, w))| == |Select(rows, w)|;
    assert |multiset(Remove(rows, w))| == |Remove(rows, w)|;
  }

  /** The multiset half of the partition, by induction on the table. */
  lemma {:induction false} SelectRemoveMultiset(rows: seq<Row>, w: Where)
    ensures multiset(Select(rows, w)) + multiset(Remove(rows, w)) == multiset(rows)
  {
    if rows != [] {
      var head, tail := rows[0], rows[1..];
      SelectRemoveMultiset(tail, w);
      assert rows == [head] + tail;
      assert multiset(rows) == multiset([head]) + multiset(tail);
      if Holds(w, head) {
        assert Select(rows, w) == [head] + Select(tail, w);
        assert Remove(rows, w) == Remove(tail, w);
      } else {
        assert Select(rows, w) == Select(tail, w);
        assert Remove(rows, w) == [head] + Remove(tail, w);
      }
    }
  }

  /** The selected rows are exactly the table's rows the condition holds for. */
  lemma {:induction false} SelectMembers(rows: seq<Row>, w: Where)
    ensures forall x :: x in Select(rows, w) <==> x in rows && Holds(w, x)
  {
    if rows != [] {
      var head, tail := rows[0], rows[1..];
      SelectMembers(tail, w);
      assert rows == [head] + tail;
      assert Select(rows, w) == (if Holds(w, head) then [head] else []) + Select(tail, w);
    }
  }

  /** The rows a delete keeps are exactly the table's rows the condition does not hold for. */
  lemma {:induction false} RemoveMembers(rows: seq<Row>, w: Where)
    ensures forall x :: x in Remove(rows, w) <==> x in rows && !Holds(w, x)
  {
    if rows != [] {
      var head, tail := rows[0], rows[1..];
      RemoveMembers(tail, w);
      assert rows == [head] + tail;
      assert Remove(rows, w) == (if Holds(w, head) then [] else [head]) + Remove(tail, w);
    }
  }

  /** The first row of a valid table clashes with none of the others, and the others
      form a valid table. */
  lemma ValidStoreSplit(s: Store, naturalKeyUnique: bool)
    requires ValidStore(s, naturalKeyUnique) && s.rows != []
    ensures ValidStore(Store(s.rows[1..], s.nextId), naturalKeyUnique)
    ensures forall x :: x in s.rows[1..] ==> !Clash(naturalKeyUnique, s.rows[0], x)
    ensures s.rows[0].id < s.nextId
  {
    var tail := s.rows[1..];
    forall x | x in tail ensures !Clash(naturalKeyUnique, s.rows[0], x) {
      var m :| 0 <= m < |tail| && tail[m] == x;
      assert s.rows[m + 1] == x;
    }
    assert forall i, j :: 0 <= i < j < |tail| ==> tail[i] == s.rows[i + 1] && tail[j] == s.rows[j + 1];
  }

  /** Putting in front of a valid table a row that clashes with none of its rows, and whose
      id is below the next id, gives a valid table. */
  lemma ValidStoreCons(h: Row, rest: seq<Row>, nextId: nat, naturalKeyUnique: bool)
    requires ValidStore(Store(rest, nextId), naturalKeyUnique) && h.id < nextId
    requires forall x :: x in rest ==> !Clash(naturalKeyUnique, h, x)
    ensures ValidStore(Store([h] + rest, nextId), naturalKeyUnique)
  {
    var r := [h] + rest;
    forall i, j | 0 <= i < j < |r| ensures !Clash(naturalKeyUnique, r[i], r[j]) {
      assert r[j] == rest[j - 1];
      if i > 0 {
        assert r[i] == rest[i - 1];
      }
    }
    forall i | 0 <= i < |r| ensures r[i].id < nextId {
      if i > 0 {
        assert r[i] == rest[i - 1];
      }
    }
  }

  /** Deleting keeps every unique key unique. */
  lemma {:induction false} RemoveIsValid(s: Store, naturalKeyUnique: bool, w: Where)
    requires ValidStore(s, naturalKeyUnique)
    ensures ValidStore(Store(Remove(s.rows, w), s.nextId), naturalKeyUnique)
    decreases |s.rows|
  {
    if s.rows != [] {
      var head, tail := s.rows[0], s.rows[1..];
      ValidStoreSplit(s, naturalKeyUnique);
      RemoveIsValid(Store(tail, s.nextId), naturalKeyUnique, w);
      var kept := Remove(tail, w);
      if Holds(w, head) {
        assert Remove(s.rows, w) == kept;
      } else {
        RemoveMembers(tail, w);
        assert Remove(s.rows, w) == [head] + kept;
        ValidStoreCons(head, kept, s.nextId, naturalKeyUnique);
      }
    }
  }

  // ---------------------------------------------------------------------------------------
  // Retention

  /** The sweep's window, INTERVAL 30 DAY, in seconds. */
  const RetentionSeconds: int := 30 * 24 * 60 * 60

  /** The condition of the nightly delete (index.js:473-476). */
  function RetentionCondition(now: int): (w: Where)
    ensures forall r :: Holds(w, r) <==>
      r.prov.dataHoraRegistro.Some? && r.prov.dataHoraRegistro.value < now - RetentionSeconds
  {
    RegisteredBefore(now - RetentionSeconds)
  }

  /** The sweep keeps exactly the rows registered at most 30 days before `now` or with no
      registration time, and deletes the rest. */
  lemma SweepKeepsRecentRows(rows: seq<Row>, now: int)
    ensures forall x :: x in Remove(rows, RetentionCondition(now)) <==>
      x in rows && (x.prov.dataHoraRegistro.None? || x.prov.dataHoraRegistro.value >= now - RetentionSeconds)
    ensures forall x :: x in Select(rows, RetentionCondition(now)) <==>
      x in rows && x.prov.dataHoraRegistro.Some? && x.prov.dataHoraRegistro.value < now - RetentionSeconds
  {
    RemoveMembers(rows, RetentionCondition(now));
    SelectMembers(rows, RetentionCondition(now));
  }

  /** One row 31 days old and one a day old: the sweep deletes exactly the first. */
  lemma SweepScenario(old31: Row, recent: Row, now: int)
    requires old31.prov.dataHoraRegistro == Some(now - 31 * 86400)
    requires recent.prov.dataHoraRegistro == Some(now - 86400)
    ensures Remove([old31, recent], RetentionCondition(now)) == [recent]
    ensures Select([old31, recent], RetentionCondition(now)) == [old31]
  {
    assert [old31, recent][1..] == [recent];
  }

  // ---------------------------------------------------------------------------------------
  // The table as the handlers mutate it

  class RecordTable {
    const naturalKeyUnique: bool
    var rows: seq<Row>
    var nextId: nat

    ghost predicate Valid()
      reads this
    {
      ValidStore(State(), naturalKeyUnique)
    }

    function State(): Store
      reads this
    {
      Store(rows, nextId)
    }

    constructor (naturalKeyUnique: bool)
      ensures Valid() && this.naturalKeyUnique == naturalKeyUnique
      ensures rows == [] && nextId == 1
    {
      this.naturalKeyUnique := naturalKeyUnique;
      rows := [];
      nextId := 1;
    }

    /** INSERT INTO inss_higienizado (...) VALUES (...). */
    method Insert(inc: Incoming, storageFails: bool) returns (outcome: Outcome)
      requires Valid()
      modifies this
      ensures Valid()
      ensures Write(State(), outcome) == InsertInto(old(State()), naturalKeyUnique, inc, storageFails)
    {
      InsertIntoIsValid(State(), naturalKeyUnique, inc, storageFails);
      if storageFails {
        outcome := Rejected;
      } else if FirstConflict(rows, naturalKeyUnique, inc).Some? {
        nextId := SpentCounter(State(), inc);
        outcome := Rejected;
      } else {
        var id := AssignedId(State(), inc);
        rows, nextId := rows + [NewRow(id, inc)], NextIdAfter(State(), id);
        outcome := Inserted(id);
      }
    }

    /** INSERT ... ON DUPLICATE KEY UPDATE (app.js:41-81). */
    method Upsert(inc: Incoming) returns (outcome: Outcome)
      requires Valid()
      modifies this
      ensures Valid()
      ensures Write(State(), outcome) == UpsertInto(old(State()), naturalKeyUnique, inc)
    {
      UpsertIntoIsValid(State(), naturalKeyUnique, inc);
      match UpsertTarget(rows, naturalKeyUnique, inc)
      case Some(k) =>
        rows, nextId := rows[k := Overwritten(rows[k], inc)], SpentCounter(State(), inc);
        outcome := Updated(k);
      case None =>
        var id := AssignedId(State(), inc);
        rows, nextId := rows + [NewRow(id, inc)], NextIdAfter(State(), id);
        outcome := Inserted(id);
    }

    /** DELETE FROM inss_higienizado WHERE w, reporting the affected rows. */
    method DeleteWhere(w: Where) returns (affected: nat)
      requires Valid()
      modifies this
      ensures Valid() && nextId == old(nextId)
      ensures rows == Remove(old(rows), w)
      ensures affected == |Select(old(rows), w)| == |old(rows)| - |rows|
    {
      RemoveIsValid(State(), naturalKeyUnique, w);
      SelectRemovePartition(rows, w);
      affected := |Select(rows, w)|;
      rows := Remove(rows, w);
    }

    /** SELECT * FROM inss_higienizado WHERE w: reads, changes nothing. */
    method SelectWhere(w: Where) returns (found: seq<Row>)
      ensures found == Select(rows, w)
      ensures forall x :: x in found <==> x in rows && Holds(w, x)
    {
      found := Select(rows, w);
      SelectMembers(rows, w);
    }
  }
}
