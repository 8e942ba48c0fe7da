/** The access-grant table `ip_data` of index.js and the two caller gates built on it:
    `checkAuthIp` (a customer grant that has not expired) and `checkAuthIp2` (the fixed
    admin allowlist), the `/api/limit` sum, the `updateIpLimit` decrement and the admin
    create/update/delete of grants. */
module Grants {
  import opened Wrappers

  /** One row of `ip_data`. `dataAdicao` is a timestamp (seconds), `dataVencimento` a day
      number: the code compares `DATE(data_vencimento)` with `CURDATE()`. */
  datatype Grant = Grant(
    id: nat,
    ip: string,
    descricao: Option<string>,
    dataAdicao: int,
    dataVencimento: int,
    limiteConsultas: int,
    totalCarregado: int)

  /** The table together with its next auto-increment id. */
  datatype Ledger = Ledger(rows: seq<Grant>, nextId: nat)

  // ---------------------------------------------------------------------------------------
  // The two gates

  /** The only addresses the admin endpoints accept. */
  const AdminIps: seq<string> := ["201.0.21.143", "45.224.161.116"]

  /** `checkAuthIp2`: the caller is one of the two admin addresses. */
  predicate CheckAuthIp2(ip: string): (ok: bool)
    ensures ok <==> ip == "201.0.21.143" || ip == "45.224.161.116"
  {
    ip in AdminIps
  }

  /** The admin gate refuses an admin address still carrying its `::ffff:` prefix, and
      the empty address. */
  lemma MappedAdminAddressRefused()
    ensures !CheckAuthIp2("::ffff:201.0.21.143") && !CheckAuthIp2("")
  {
  }

  /** `ip = ? AND DATE(data_vencimento) >= CURDATE()`: a grant for `ip` that expires today
      or later. */
  predicate Unexpired(g: Grant, ip: string, today: int): (u: bool)
    ensures u ==> g.ip == ip
    ensures g.dataVencimento < today ==> !u
    ensures g.ip == ip && g.dataVencimento == today ==> u
  {
    g.ip == ip && g.dataVencimento >= today
  }

  /** `checkAuthIp`: some grant for this exact address has not expired. The remaining
      limit plays no part. */
  function CheckAuthIp(rows: seq<Grant>, ip: string, today: int): (ok: bool)
    ensures ok <==> exists g :: g in rows && Unexpired(g, ip, today)
  {
    if rows == [] then false
    else Unexpired(rows[0], ip, today) || CheckAuthIp(rows[1..], ip, today)
  }

  /** The gate looks only at address and expiry: two tables that differ only in the limit
      and total columns of their rows admit the same callers. In particular a grant whose
      limit has reached zero still admits its address, and consuming quota never locks a
      caller out. */
  lemma GateIgnoresLimits(rows: seq<Grant>, rows': seq<Grant>, ip: string, today: int)
    requires |rows'| == |rows|
    requires forall i :: 0 <= i < |rows| ==>
      rows'[i].ip == rows[i].ip && rows'[i].dataVencimento == rows[i].dataVencimento
    ensures CheckAuthIp(rows', ip, today) == CheckAuthIp(rows, ip, today)
  {
    if CheckAuthIp(rows, ip, today) {
      var g :| g in rows && Unexpired(g, ip, today);
      var i :| 0 <= i < |rows| && rows[i] == g;
      assert Unexpired(rows'[i], ip, today);
    }
    if CheckAuthIp(rows', ip, today) {
      var g :| g in rows' && Unexpired(g, ip, today);
      var i :| 0 <= i < |rows'| && rows'[i] == g;
      assert Unexpired(rows[i], ip, today);
    }
  }

  // ---------------------------------------------------------------------------------------
  // The `/api/limit` sum

  /** What one row adds to `SUM(limite_consultas) ... WHERE ip = ? AND DATE(...) >= CURDATE()`. */
  function Contribution(g: Grant, ip: string, today: int): (c: int)
    ensures g.ip != ip || g.dataVencimento < today ==> c == 0
    ensures g.ip == ip && g.dataVencimento >= today ==> c == g.limiteConsultas
  {
    if Unexpired(g, ip, today) then g.limiteConsultas else 0
  }

  /** A grant the decrement may pick: unexpired and with a positive limit. */
  predicate Qualifying(g: Grant, ip: string, today: int): (q: bool)
    ensures q <==> Contribution(g, ip, today) > 0
  {
    Unexpired(g, ip, today) && g.limiteConsultas > 0
  }

  predicate NonNegativeLimits(rows: seq<Grant>) {
    forall i :: 0 <= i < |rows| ==> rows[i].limiteConsultas >= 0
  }

  /** The remaining quota `/api/limit` reports: the limits of the caller's unexpired grants
      added up (`SUM` over no rows is NULL, which `|| 0` turns into 0). */
  function LimitSum(rows: seq<Grant>, ip: string, today: int): (total: int)
    ensures !CheckAuthIp(rows, ip, today) ==> total == 0
    ensures total > 0 ==> exists g :: g in rows && Qualifying(g, ip, today)
    ensures NonNegativeLimits(rows) ==> total >= 0
  {
    if rows == [] then 0
    else
      var first := Contribution(rows[0], ip, today);
      var rest := LimitSum(rows[1..], ip, today);
      assert first > 0 ==> rows[0] in rows && Qualifying(rows[0], ip, today);
      assert forall g :: g in rows[1..] ==> g in rows;
      first + rest
  }

  /** Appending a grant adds its contribution to the sum. */
  lemma {:induction false} LimitSumAppend(rows: seq<Grant>, g: Grant, ip: string, today: int)
    ensures LimitSum(rows + [g], ip, today) == LimitSum(rows, ip, today) + Contribution(g, ip, today)
  {
    if rows != [] {
      assert (rows + [g])[1..] == rows[1..] + [g];
      LimitSumAppend(rows[1..], g, ip, today);
    }
  }

  /** Replacing one row changes the sum by the difference of the two contributions. */
  lemma {:induction false} LimitSumUpdate(rows: seq<Grant>, k: nat, g: Grant, ip: string, today: int)
    requires k < |rows|
    ensures LimitSum(rows[k := g], ip, today)
         == LimitSum(rows, ip, today) - Contribution(rows[k], ip, today) + Contribution(g, ip, today)
  {
    if k > 0 {
      assert rows[k := g][1..] == rows[1..][k - 1 := g];
      LimitSumUpdate(rows[1..], k - 1, g, ip, today);
    } else {
      assert rows[k := g][1..] == rows[1..];
    }
  }

  /** Removing one row takes its contribution out of the sum. */
  lemma {:induction false} LimitSumRemove(rows: seq<Grant>, k: nat, ip: string, today: int)
    requires k < |rows|
    ensures LimitSum(rows[..k] + rows[k + 1..], ip, today)
         == LimitSum(rows, ip, today) - Contribution(rows[k], ip, today)
  {
    if k > 0 {
      assert (rows[..k] + rows[k + 1..])[1..] == rows[1..][..k - 1] + rows[1..][k..];
      LimitSumRemove(rows[1..], k - 1, ip, today);
    } else {
      assert rows[..k] + rows[k + 1..] == rows[1..];
    }
  }

  /** When only row `k` belongs to `ip`, the sum is that row's contribution. */
  lemma {:induction false} LimitSumOfOnlyGrant(rows: seq<Grant>, k: nat, ip: string, today: int)
    requires k < |rows|
    requires forall i :: 0 <= i < |rows| && i != k ==> rows[i].ip != ip
    ensures LimitSum(rows, ip, today) == Contribution(rows[k], ip, today)
  {
    if k > 0 {
      LimitSumOfOnlyGrant(rows[1..], k - 1, ip, today);
    } else {
      LimitSumOfNoGrant(rows[1..], ip, today);
    }
  }

  /** A table with no row for `ip` sums to 0 for it. */
  lemma {:induction false} LimitSumOfNoGrant(rows: seq<Grant>, ip: string, today: int)
    requires forall i :: 0 <= i < |rows| ==> rows[i].ip != ip
    ensures LimitSum(rows, ip, today) == 0
  {
    if rows != [] {
      LimitSumOfNoGrant(rows[1..], ip, today);
    }
  }

  /** With no negative limit in the table, the sum is at least any one row's contribution. */
  lemma {:induction false} LimitSumAtLeastRow(rows: seq<Grant>, k: nat, ip: string, today: int)
    requires k < |rows| && NonNegativeLimits(rows)
    ensures LimitSum(rows, ip, today) >= Contribution(rows[k], ip, today)
  {
    assert NonNegativeLimits(rows[1..]);
    if k > 0 {
      LimitSumAtLeastRow(rows[1..], k - 1, ip, today);
    }
  }

  // ---------------------------------------------------------------------------------------
  // `updateIpLimit`

  /** The row `updateIpLimit`'s sub-select picks: a qualifying grant with the latest
      `data_adicao`. `ORDER BY data_adicao DESC LIMIT 1` leaves ties to the database; the
      model breaks them in favour of the row added to the table last. */
  function LatestQualifying(rows: seq<Grant>, ip: string, today: int): (k: Option<nat>)
    ensures k.None? <==> forall i :: 0 <= i < |rows| ==> !Qualifying(rows[i], ip, today)
    ensures k.Some? ==> k.value < |rows| && Qualifying(rows[k.value], ip, today)
    ensures k.Some? ==> forall i :: 0 <= i < |rows| && Qualifying(rows[i], ip, today) ==>
      rows[i].dataAdicao <= rows[k.value].dataAdicao
    ensures k.Some? ==> forall i :: k.value < i < |rows| && Qualifying(rows[i], ip, today) ==>
      rows[i].dataAdicao < rows[k.value].dataAdicao
  {
    if rows == [] then None
    else
      var n := |rows| - 1;
      var earlier := LatestQualifying(rows[..n], ip, today);
      if Qualifying(rows[n], ip, today)
         && (earlier.None? || rows[earlier.value].dataAdicao <= rows[n].dataAdicao)
      then Some(n)
      else earlier
  }

  /** SQL's `GREATEST` of two integers. */
  function Greatest(a: int, b: int): (m: int)
    ensures m >= a && m >= b && (m == a || m == b)
  {
    if a >= b then a else b
  }

  /** The table after `updateIpLimit`: the picked row's limit becomes
      `GREATEST(limite_consultas - 1, 0)`; nothing else changes. */
  function Decremented(rows: seq<Grant>, ip: string, today: int): (r: seq<Grant>)
    ensures |r| == |rows|
    ensures LatestQualifying(rows, ip, today).None? ==> r == rows
    ensures LatestQualifying(rows, ip, today).Some? ==>
      var k := LatestQualifying(rows, ip, today).value;
      && (forall i :: 0 <= i < |rows| && i != k ==> r[i] == rows[i])
      && r[k] == rows[k].(limiteConsultas := rows[k].limiteConsultas - 1)
      && r[k].limiteConsultas >= 0
  {
    match LatestQualifying(rows, ip, today)
    case None => rows
    case Some(k) =>
      rows[k := rows[k].(limiteConsultas := Greatest(rows[k].limiteConsultas - 1, 0))]
  }

  /** The reported quota drops by exactly one when some grant qualified, and not at all
      otherwise. */
  lemma DecrementLowersSumByOne(rows: seq<Grant>, ip: string, today: int)
    ensures LimitSum(Decremented(rows, ip, today), ip, today)
         == LimitSum(rows, ip, today) - (if LatestQualifying(rows, ip, today).Some? then 1 else 0)
  {
    match LatestQualifying(rows, ip, today)
    case None =>
    case Some(k) =>
      LimitSumUpdate(rows, k, Decremented(rows, ip, today)[k], ip, today);
      assert Decremented(rows, ip, today) == rows[k := Decremented(rows, ip, today)[k]];
  }

  /** A positive reported quota always drops by exactly one. */
  lemma PositiveQuotaIsConsumed(rows: seq<Grant>, ip: string, today: int)
    requires LimitSum(rows, ip, today) > 0
    ensures LimitSum(Decremented(rows, ip, today), ip, today) == LimitSum(rows, ip, today) - 1
  {
    var g :| g in rows && Qualifying(g, ip, today);
    var i :| 0 <= i < |rows| && rows[i] == g;
    assert LatestQualifying(rows, ip, today).Some?;
    DecrementLowersSumByOne(rows, ip, today);
  }

  /** With no negative limit, an exhausted quota stays at zero and the table is untouched:
      repeated consumption never drives a limit below zero. */
  lemma ExhaustedQuotaIsUntouched(rows: seq<Grant>, ip: string, today: int)
    requires NonNegativeLimits(rows)
    requires LimitSum(rows, ip, today) == 0
    ensures Decremented(rows, ip, today) == rows
    ensures NonNegativeLimits(Decremented(rows, ip, today))
  {
    if LatestQualifying(rows, ip, today).Some? {
      var k := LatestQualifying(rows, ip, today).value;
      LimitSumAtLeastRow(rows, k, ip, today);
      assert false;
    }
  }

  /** Consuming quota keeps every limit non-negative. */
  lemma DecrementKeepsLimitsNonNegative(rows: seq<Grant>, ip: string, today: int)
    requires NonNegativeLimits(rows)
    ensures NonNegativeLimits(Decremented(rows, ip, today))
  {
    var r := Decremented(rows, ip, today);
    forall i | 0 <= i < |r| ensures r[i].limiteConsultas >= 0 {
      if LatestQualifying(rows, ip, today).Some? && i != LatestQualifying(rows, ip, today).value {
        assert r[i] == rows[i];
      }
    }
  }

  /** A grant of two queries, expiring in the future: two uses bring the reported quota to
      1 and then 0; a third use leaves it at 0, and the gate still admits the address. The
      code has no quota check before writing, so the third request is not refused. */
  lemma TwoQueryGrantScenario(ip: string, today: int)
    ensures var g := Grant(1, ip, None, 0, today + 30, 2, 2);
      var once := Decremented([g], ip, today);
      var twice := Decremented(once, ip, today);
      var thrice := Decremented(twice, ip, today);
      && LimitSum(once, ip, today) == 1
      && LimitSum(twice, ip, today) == 0
      && LimitSum(thrice, ip, today) == 0
      && CheckAuthIp(thrice, ip, today)
  {
    var g := Grant(1, ip, None, 0, today + 30, 2, 2);
    var once := Decremented([g], ip, today);
    assert once == [g.(limiteConsultas := 1)];
    var twice := Decremented(once, ip, today);
    assert twice == [g.(limiteConsultas := 0)];
    assert LatestQualifying(twice, ip, today).None?;
  }

  /** A zero quota made of a negative and a positive limit is still consumed: the newest
      grant with a positive limit qualifies, so the decrement takes the reported quota to -1. */
  lemma MixedZeroQuotaDropsBelowZero(ip: string, today: int)
    ensures var rows := [Grant(1, ip, None, 0, today, -1, -1), Grant(2, ip, None, 10, today, 1, 1)];
      && LimitSum(rows, ip, today) == 0
      && LimitSum(Decremented(rows, ip, today), ip, today) == -1
  {
    var rows := [Grant(1, ip, None, 0, today, -1, -1), Grant(2, ip, None, 10, today, 1, 1)];
    assert Qualifying(rows[1], ip, today);
    assert LatestQualifying(rows, ip, today) == Some(1);
    DecrementLowersSumByOne(rows, ip, today);
  }

  // ---------------------------------------------------------------------------------------
  // Lookup and listing

  /** Auto-increment ids grow along the table. */
  predicate IdsIncreasing(rows: seq<Grant>) {
    forall i, j :: 0 <= i < j < |rows| ==> rows[i].id < rows[j].id
  }

  predicate ValidLedger(l: Ledger) {
    IdsIncreasing(l.rows) && forall i :: 0 <= i < |l.rows| ==> l.rows[i].id < l.nextId
  }

  /** The two columns the admin endpoints look a grant up by: `WHERE id = ?` (PUT and
      DELETE) and `WHERE ip = ?` (POST). */
  datatype Lookup = IdIs(id: int) | IpIs(ip: string)

  predicate Matches(g: Grant, q: Lookup) {
    match q
    case IdIs(id) => g.id == id
    case IpIs(ip) => g.ip == ip
  }

  /** The row such a query reads through `selRes[0]`: the first match in table order. The
      queries have no ORDER BY, so MySQL returns primary-key order, which is table order
      here because the ids of `ip_data` grow along the table (`IdsIncreasing`). */
  function FirstMatch(rows: seq<Grant>, q: Lookup): (k: Option<nat>)
    ensures k.None? <==> forall i :: 0 <= i < |rows| ==> !Matches(rows[i], q)
    ensures k.Some? ==> k.value < |rows| && Matches(rows[k.value], q)
    ensures k.Some? ==> forall i :: 0 <= i < k.value ==> !Matches(rows[i], q)
  {
    if rows == [] then None
    else if Matches(rows[0], q) then Some(0)
    else match FirstMatch(rows[1..], q)
      case None => None
      case Some(j) => Some(j + 1)
  }

  /** In a table whose ids grow along it, the first match is the match with the smallest
      id, the row MySQL's primary-key order returns first. */
  lemma FirstMatchHasSmallestId(rows: seq<Grant>, q: Lookup)
    requires IdsIncreasing(rows) && FirstMatch(rows, q).Some?
    ensures forall i :: 0 <= i < |rows| && Matches(rows[i], q) ==>
      rows[FirstMatch(rows, q).value].id <= rows[i].id
  {
  }

  /** `ORDER BY id DESC` of a table whose ids grow along it: the rows from last to first. */
  function NewestFirst(rows: seq<Grant>): (r: seq<Grant>)
    ensures |r| == |rows|
    ensures forall i :: 0 <= i < |r| ==> r[i] == rows[|rows| - 1 - i]
    ensures multiset(r) == multiset(rows)
  {
    if rows == [] then []
    else
      var n := |rows| - 1;
      assert rows == rows[..n] + [rows[n]];
      [rows[n]] + NewestFirst(rows[..n])
  }

  // ---------------------------------------------------------------------------------------
  // Admin create/update/delete

  /** POST on an address that already has a grant: the description and expiry are
      replaced, the limit is REPLACED by the new value and the total loaded grows by it. */
  function Regranted(g: Grant, descricao: Option<string>, vencimento: int, novoLimite: int): (r: Grant)
    ensures r.id == g.id && r.ip == g.ip && r.dataAdicao == g.dataAdicao
    ensures r.descricao == descricao && r.dataVencimento == vencimento
    ensures r.limiteConsultas == novoLimite
    ensures r.totalCarregado == g.totalCarregado + novoLimite
  {
    g.(descricao := descricao, dataVencimento := vencimento,
       limiteConsultas := novoLimite, totalCarregado := g.totalCarregado + novoLimite)
  }

  /** The ledger after POST /api/auth-ips with validated input: update the first grant for
      the address, or add a new one stamped with `now` whose limit and total are both the
      new value. */
  function AfterGrant(l: Ledger, ip: string, descricao: Option<string>, vencimento: int,
                      novoLimite: int, now: int): (r: Ledger)
    ensures FirstMatch(l.rows, IpIs(ip)).Some? ==> var k := FirstMatch(l.rows, IpIs(ip)).value;
      r == Ledger(l.rows[k := Regranted(l.rows[k], descricao, vencimento, novoLimite)], l.nextId)
    ensures FirstMatch(l.rows, IpIs(ip)).None? ==>
      r == Ledger(l.rows + [Grant(l.nextId, ip, descricao, now, vencimento, novoLimite, novoLimite)],
                  l.nextId + 1)
  {
    match FirstMatch(l.rows, IpIs(ip))
    case Some(k) => Ledger(l.rows[k := Regranted(l.rows[k], descricao, vencimento, novoLimite)], l.nextId)
    case None => Ledger(l.rows + [Grant(l.nextId, ip, descricao, now, vencimento, novoLimite, novoLimite)],
                        l.nextId + 1)
  }

  /** Granting keeps the ids increasing and below the next id. */
  lemma AfterGrantIsValid(l: Ledger, ip: string, descricao: Option<string>, vencimento: int,
                          novoLimite: int, now: int)
    requires ValidLedger(l)
    ensures ValidLedger(AfterGrant(l, ip, descricao, vencimento, novoLimite, now))
  {
  }

  /** Re-granting replaces rather than tops up: when the address has one grant and the new
      expiry is not past, `/api/limit` afterwards reports exactly the new value, whatever
      was left before. */
  lemma RegrantReplacesQuota(l: Ledger, ip: string, descricao: Option<string>, vencimento: int,
                             novoLimite: int, now: int, today: int)
    requires vencimento >= today
    requires forall i, j :: 0 <= i < |l.rows| && 0 <= j < |l.rows| && l.rows[i].ip == ip && l.rows[j].ip == ip ==> i == j
    ensures LimitSum(AfterGrant(l, ip, descricao, vencimento, novoLimite, now).rows, ip, today) == novoLimite
  {
    var r := AfterGrant(l, ip, descricao, vencimento, novoLimite, now).rows;
    match FirstMatch(l.rows, IpIs(ip))
    case Some(k) =>
      LimitSumOfOnlyGrant(r, k, ip, today);
    case None =>
      LimitSumAppend(l.rows, r[|l.rows|], ip, today);
      LimitSumOfNoGrant(l.rows, ip, today);
  }

  /** The grant PUT /api/auth-ips/:id writes over the old one: every column but the id and
      `data_adicao`, with the total loaded grown by the new limit. */
  function Edited(g: Grant, ip: string, descricao: Option<string>, vencimento: int, novoLimite: int): (r: Grant)
    ensures r.id == g.id && r.dataAdicao == g.dataAdicao
    ensures r.ip == ip && r.descricao == descricao && r.dataVencimento == vencimento
    ensures r.limiteConsultas == novoLimite && r.totalCarregado == g.totalCarregado + novoLimite
  {
    Grant(g.id, ip, descricao, g.dataAdicao, vencimento, novoLimite, g.totalCarregado + novoLimite)
  }

  /** PUT that keeps the address writes the same grant as POST's update branch: both
      replace the limit and grow the total by it. */
  lemma EditKeepingIpIsRegrant(g: Grant, descricao: Option<string>, vencimento: int, novoLimite: int)
    ensures Edited(g, g.ip, descricao, vencimento, novoLimite) == Regranted(g, descricao, vencimento, novoLimite)
  {
  }

  // ---------------------------------------------------------------------------------------
  // The table as index.js mutates it

  class GrantTable {
    var rows: seq<Grant>
    var nextId: nat

    ghost predicate Valid()
      reads this
    {
      ValidLedger(State())
    }

    function State(): Ledger
      reads this
    {
      Ledger(rows, nextId)
    }

    constructor ()
      ensures Valid() && rows == [] && nextId == 1
    {
      rows := [];
      nextId := 1;
    }

    /** The row logic of POST /api/auth-ips (index.js:95-131) on validated input:
        returns the new id when a row is created. */
    method GrantAccess(ip: string, descricao: Option<string>, vencimento: int, novoLimite: int, now: int)
      returns (insertId: Option<nat>)
      requires Valid()
      modifies this
      ensures Valid()
      ensures State() == AfterGrant(old(State()), ip, descricao, vencimento, novoLimite, now)
      ensures insertId == if FirstMatch(old(rows), IpIs(ip)).None? then Some(old(nextId)) else None
    {
      AfterGrantIsValid(State(), ip, descricao, vencimento, novoLimite, now);
      match FirstMatch(rows, IpIs(ip))
      case Some(k) =>
        rows := rows[k := Regranted(rows[k], descricao, vencimento, novoLimite)];
        insertId := None;
      case None =>
        rows := rows + [Grant(nextId, ip, descricao, now, vencimento, novoLimite, novoLimite)];
        insertId := Some(nextId);
        nextId := nextId + 1;
    }

    /** The row logic of PUT /api/auth-ips/:id (index.js:139-160): false (404) when no row
        has the id, otherwise that row is overwritten and nothing else changes. */
    method Edit(id: int, ip: string, descricao: Option<string>, vencimento: int, novoLimite: int)
      returns (found: bool)
      requires Valid()
      modifies this
      ensures Valid() && nextId == old(nextId)
      ensures found <==> FirstMatch(old(rows), IdIs(id)).Some?
      ensures !found ==> rows == old(rows)
      ensures found ==> var k := FirstMatch(old(rows), IdIs(id)).value;
        rows == old(rows)[k := Edited(old(rows)[k], ip, descricao, vencimento, novoLimite)]
    {
      match FirstMatch(rows, IdIs(id))
      case None =>
        found := false;
      case Some(k) =>
        rows := rows[k := Edited(rows[k], ip, descricao, vencimento, novoLimite)];
        found := true;
    }

    /** DELETE /api/auth-ips/:id (index.js:165-177): false (404) when no row was
        affected, otherwise exactly the row with that id is gone. */
    method Remove(id: int) returns (found: bool)
      requires Valid()
      modifies this
      ensures Valid() && nextId == old(nextId)
      ensures found <==> FirstMatch(old(rows), IdIs(id)).Some?
      ensures !found ==> rows == old(rows)
      ensures found ==> var k := FirstMatch(old(rows), IdIs(id)).value;
        rows == old(rows)[..k] + old(rows)[k + 1..]
      ensures forall i :: 0 <= i < |rows| ==> rows[i].id != id
    {
      match FirstMatch(rows, IdIs(id))
      case None =>
        found := false;
      case Some(k) =>
        ghost var before := rows;
        rows := rows[..k] + rows[k + 1..];
        found := true;
        forall i | 0 <= i < |rows| ensures rows[i].id != id {
          if i < k {
            assert rows[i] == before[i];
          } else {
            assert rows[i] == before[i + 1];
          }
        }
    }

    /** `updateIpLimit` (index.js:220-243): at most one row, the latest qualifying grant,
        loses one query. */
    method UpdateIpLimit(ip: string, today: int)
      requires Valid()
      modifies this
      ensures Valid() && nextId == old(nextId)
      ensures rows == Decremented(old(rows), ip, today)
    {
      rows := Decremented(rows, ip, today);
    }

    /** `/api/limit` (index.js:185-193): the remaining quota of `ip`. */
    method Limit(ip: string, today: int) returns (total: int)
      ensures total == LimitSum(rows, ip, today)
      ensures total > 0 ==> CheckAuthIp(rows, ip, today)
    {
      total := LimitSum(rows, ip, today);
    }

    /** GET /api/auth-ips (index.js:68-87): every grant, highest id first. */
    method List() returns (list: seq<Grant>)
      requires Valid()
      ensures multiset(list) == multiset(rows)
      ensures forall i, j :: 0 <= i < j < |list| ==> list[i].id > list[j].id
    {
      list := NewestFirst(rows);
      forall i, j | 0 <= i < j < |list| ensures list[i].id > list[j].id {
        assert list[i] == rows[|rows| - 1 - i] && list[j] == rows[|rows| - 1 - j];
      }
    }
  }
}
