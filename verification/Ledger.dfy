/** The leave-balance ledger: its aggregate queries, and the bulk update and bulk delete that settle and
    release the rows of a request. */
module Ledger {
  import opened LeaveTypes

  datatype Sign = AnySign | Credits | Debits

  /** The `where` clause of an aggregate: a key, pending or settled, the sign of the amount, and the
      latest effective date, if there is one. */
  datatype Where = Where(key: Key, isPending: bool, sign: Sign, until: Option<int>)

  function KeyOf(row: LedgerRow): Key {
    Key(row.tenantId, row.employeeId, row.policyId)
  }

  predicate Matches(w: Where, row: LedgerRow) {
    && KeyOf(row) == w.key
    && row.isPending == w.isPending
    && (w.sign == Credits ==> row.amount > 0)
    && (w.sign == Debits ==> row.amount < 0)
    && (w.until.Some? ==> row.effectiveDate <= w.until.value)
  }

  /** `_sum.amount ?? 0` */
  function Sum(rows: seq<LedgerRow>, w: Where): int {
    if rows == [] then 0
    else Sum(rows[..|rows| - 1], w) + if Matches(w, rows[|rows| - 1]) then rows[|rows| - 1].amount else 0
  }

  /** Every settled row of the key, of whatever date. */
  function Settled(key: Key): Where {
    Where(key, false, AnySign, None)
  }

  function Pending(key: Key): Where {
    Where(key, true, AnySign, None)
  }

  /** The settled rows of the key already in effect. */
  function Effective(key: Key, today: int): Where {
    Where(key, false, AnySign, Some(today))
  }

  /** `getUsableBalance`, and the balance that the accrual jobs read. */
  function UsableBalance(rows: seq<LedgerRow>, key: Key, today: int): int {
    Sum(rows, Effective(key, today))
  }

  /** The rows that point at a request, or with None the rows that point at none. */
  function RowsOf(rows: seq<LedgerRow>, ref: Option<Id>): seq<LedgerRow> {
    if rows == [] then []
    else RowsOf(rows[..|rows| - 1], ref) +
         if rows[|rows| - 1].referenceId == ref then [rows[|rows| - 1]] else []
  }

  function RowsNotOf(rows: seq<LedgerRow>, ref: Option<Id>): seq<LedgerRow> {
    if rows == [] then []
    else RowsNotOf(rows[..|rows| - 1], ref) +
         if rows[|rows| - 1].referenceId != ref then [rows[|rows| - 1]] else []
  }

  /** The `where` clause of the bulk update and the bulk delete. */
  predicate AwaitsRequest(row: LedgerRow, id: Id) {
    row.referenceId == Some(id) && row.isPending
  }

  function SettledRow(row: LedgerRow, id: Id): LedgerRow {
    if AwaitsRequest(row, id) then row.(isPending := false) else row
  }

  /** `updateMany`: every pending row of the request becomes settled. */
  function SettlePending(rows: seq<LedgerRow>, id: Id): seq<LedgerRow> {
    if rows == [] then []
    else SettlePending(rows[..|rows| - 1], id) + [SettledRow(rows[|rows| - 1], id)]
  }

  /** `deleteMany`: every pending row of the request disappears. */
  function DropPending(rows: seq<LedgerRow>, id: Id): seq<LedgerRow> {
    if rows == [] then []
    else DropPending(rows[..|rows| - 1], id) +
         var row := rows[|rows| - 1]; if AwaitsRequest(row, id) then [] else [row]
  }

  // ---- Sums ----

  /** Which rows count: wherever a row stands in the table, it adds its amount to the usable balance exactly if
      it is the key's, settled and in effect. With an empty table's balance of zero this fixes every balance. */
  lemma UsableCounts(a: seq<LedgerRow>, row: LedgerRow, b: seq<LedgerRow>, key: Key, today: int)
    ensures UsableBalance([], key, today) == 0
    ensures UsableBalance(a + [row] + b, key, today) ==
            UsableBalance(a + b, key, today) +
            if KeyOf(row) == key && !row.isPending && row.effectiveDate <= today then row.amount else 0
  {
    var w := Effective(key, today);
    SumConcat(a + [row], b, w);
    SumAppend(a, row, w);
    SumConcat(a, b, w);
  }

  lemma {:induction false} SumConcat(a: seq<LedgerRow>, b: seq<LedgerRow>, w: Where)
    ensures Sum(a + b, w) == Sum(a, w) + Sum(b, w)
  {
    if b == [] {
      assert a + b == a;
    } else {
      SumConcat(a, b[..|b| - 1], w);
      assert (a + b)[..|a + b| - 1] == a + b[..|b| - 1];
    }
  }

  lemma SumAppend(rows: seq<LedgerRow>, row: LedgerRow, w: Where)
    ensures Sum(rows + [row], w) == Sum(rows, w) + if Matches(w, row) then row.amount else 0
  {
    assert (rows + [row])[..|rows|] == rows;
  }

  /** Clauses that select the same rows of a table, up to rows of amount zero, have the same sum. */
  lemma {:induction false} SumAgree(rows: seq<LedgerRow>, v: Where, w: Where)
    requires forall row <- rows :: row.amount != 0 ==> Matches(v, row) == Matches(w, row)
    ensures Sum(rows, v) == Sum(rows, w)
  {
    if rows != [] {
      SumAgree(rows[..|rows| - 1], v, w);
    }
  }

  /** A clause whose rows split into those of two others. */
  lemma {:induction false} SumSplit(rows: seq<LedgerRow>, u: Where, v: Where, w: Where)
    requires forall row <- rows :: Matches(u, row) && row.amount != 0 ==> Matches(v, row) || Matches(w, row)
    requires forall row <- rows :: Matches(v, row) || Matches(w, row) ==> Matches(u, row)
    requires forall row <- rows :: !(Matches(v, row) && Matches(w, row))
    ensures Sum(rows, u) == Sum(rows, v) + Sum(rows, w)
  {
    if rows != [] {
      SumSplit(rows[..|rows| - 1], u, v, w);
    }
  }

  lemma {:induction false} SumOfDebits(rows: seq<LedgerRow>, w: Where)
    requires forall row <- rows :: Matches(w, row) ==> row.amount <= 0
    ensures Sum(rows, w) <= 0
  {
    if rows != [] {
      SumOfDebits(rows[..|rows| - 1], w);
    }
  }

  /** Settling pending debits can only lower a settled balance. */
  lemma {:induction false} SettlingLowers(rows: seq<LedgerRow>, id: Id, w: Where)
    requires !w.isPending && forall row <- rows :: row.isPending ==> row.amount <= 0
    ensures Sum(SettlePending(rows, id), w) <= Sum(rows, w)
  {
    if rows != [] {
      var init, last := rows[..|rows| - 1], rows[|rows| - 1];
      SettlingLowers(init, id, w);
      SumAppend(SettlePending(init, id), SettledRow(last, id), w);
    }
  }

  /** Dropping pending rows leaves every settled balance as it is. */
  lemma {:induction false} DroppingKeeps(rows: seq<LedgerRow>, id: Id, w: Where)
    requires !w.isPending
    ensures Sum(DropPending(rows, id), w) == Sum(rows, w)
  {
    if rows != [] {
      var init, last := rows[..|rows| - 1], rows[|rows| - 1];
      DroppingKeeps(init, id, w);
      if AwaitsRequest(last, id) {
        assert DropPending(rows, id) == DropPending(init, id);
      } else {
        SumAppend(DropPending(init, id), last, w);
      }
    }
  }

  /** When the clock moves on, only rows dated in between come into effect. */
  lemma {:induction false} UsableLater(rows: seq<LedgerRow>, key: Key, today: int, later: int)
    requires today <= later
    requires forall row <- rows :: row.effectiveDate > today ==> row.amount <= 0
    ensures UsableBalance(rows, key, later) <= UsableBalance(rows, key, today)
  {
    if rows != [] {
      UsableLater(rows[..|rows| - 1], key, today, later);
    }
  }

  lemma {:induction false} SumByReference(rows: seq<LedgerRow>, ref: Option<Id>, w: Where)
    ensures Sum(rows, w) == Sum(RowsOf(rows, ref), w) + Sum(RowsNotOf(rows, ref), w)
  {
    if rows != [] {
      var init, last := rows[..|rows| - 1], rows[|rows| - 1];
      hide Matches;
      SumByReference(init, ref, w);
      if last.referenceId == ref {
        SumAppend(RowsOf(init, ref), last, w);
        assert RowsNotOf(rows, ref) == RowsNotOf(init, ref);
      } else {
        SumAppend(RowsNotOf(init, ref), last, w);
        assert RowsOf(rows, ref) == RowsOf(init, ref);
      }
    }
  }

  // ---- Which rows belong to which request ----

  lemma {:induction false} RowsOfConcat(a: seq<LedgerRow>, b: seq<LedgerRow>, ref: Option<Id>)
    ensures RowsOf(a + b, ref) == RowsOf(a, ref) + RowsOf(b, ref)
  {
    if b == [] {
      assert a + b == a;
    } else {
      RowsOfConcat(a, b[..|b| - 1], ref);
      assert (a + b)[..|a + b| - 1] == a + b[..|b| - 1];
    }
  }

  lemma {:induction false} RowsOfNone(rows: seq<LedgerRow>, ref: Option<Id>)
    requires forall row <- rows :: row.referenceId != ref
    ensures RowsOf(rows, ref) == []
  {
    if rows != [] {
      RowsOfNone(rows[..|rows| - 1], ref);
    }
  }

  lemma {:induction false} RowsOfAll(rows: seq<LedgerRow>, ref: Option<Id>)
    requires forall row <- rows :: row.referenceId == ref
    ensures RowsOf(rows, ref) == rows
  {
    if rows != [] {
      RowsOfAll(rows[..|rows| - 1], ref);
    }
  }

  lemma {:induction false} RowsOfMembers(rows: seq<LedgerRow>, ref: Option<Id>)
    ensures forall row :: row in RowsOf(rows, ref) <==> row in rows && row.referenceId == ref
    ensures forall row :: row in RowsNotOf(rows, ref) <==> row in rows && row.referenceId != ref
  {
    if rows != [] {
      var init, last := rows[..|rows| - 1], rows[|rows| - 1];
      RowsOfMembers(init, ref);
      assert rows == init + [last];
    }
  }

  lemma {:induction false} RowsOfRest(rows: seq<LedgerRow>, ref: Option<Id>, other: Option<Id>)
    requires ref != other
    ensures RowsOf(RowsNotOf(rows, ref), other) == RowsOf(rows, other)
  {
    if rows != [] {
      var init, last := rows[..|rows| - 1], rows[|rows| - 1];
      RowsOfRest(init, ref, other);
      RowsOfConcat(RowsNotOf(init, ref), [last], other);
      assert RowsNotOf(init, ref) + [] == RowsNotOf(init, ref);
      assert [last][..0] == [];
    }
  }

  lemma SettleAppend(rows: seq<LedgerRow>, row: LedgerRow, id: Id)
    ensures SettlePending(rows + [row], id) == SettlePending(rows, id) + [SettledRow(row, id)]
  {
    assert (rows + [row])[..|rows|] == rows;
  }

  lemma DropAppend(rows: seq<LedgerRow>, row: LedgerRow, id: Id)
    ensures DropPending(rows + [row], id) ==
            DropPending(rows, id) + if AwaitsRequest(row, id) then [] else [row]
  {
    assert (rows + [row])[..|rows|] == rows;
  }

  lemma RowsOfAppend(rows: seq<LedgerRow>, row: LedgerRow, ref: Option<Id>)
    ensures RowsOf(rows + [row], ref) == RowsOf(rows, ref) + if row.referenceId == ref then [row] else []
  {
    assert (rows + [row])[..|rows|] == rows;
  }

  lemma {:induction false} RowsOfSettled(rows: seq<LedgerRow>, id: Id, ref: Option<Id>)
    ensures RowsOf(SettlePending(rows, id), ref) == SettlePending(RowsOf(rows, ref), id)
    ensures ref != Some(id) ==> RowsOf(SettlePending(rows, id), ref) == RowsOf(rows, ref)
  {
    if rows != [] {
      var init, last := rows[..|rows| - 1], rows[|rows| - 1];
      RowsOfSettled(init, id, ref);
      RowsOfAppend(SettlePending(init, id), SettledRow(last, id), ref);
      SettleAppend(RowsOf(init, ref), last, id);
      assert RowsOf(init, ref) + [] == RowsOf(init, ref);
    }
  }

  lemma {:induction false} RowsOfDropped(rows: seq<LedgerRow>, id: Id, ref: Option<Id>)
    ensures RowsOf(DropPending(rows, id), ref) == DropPending(RowsOf(rows, ref), id)
    ensures ref != Some(id) ==> RowsOf(DropPending(rows, id), ref) == RowsOf(rows, ref)
  {
    if rows != [] {
      var init, last := rows[..|rows| - 1], rows[|rows| - 1];
      RowsOfDropped(init, id, ref);
      RowsOfAppend(DropPending(init, id), last, ref);
      DropAppend(RowsOf(init, ref), last, id);
      assert RowsOf(init, ref) + [] == RowsOf(init, ref) && DropPending(init, id) + [] == DropPending(init, id);
    }
  }

  /** Settling is a map over the table: the row in each place is the old one, settled if it was a pending
      row of the request. */
  lemma {:induction false} SettlePendingRows(rows: seq<LedgerRow>, id: Id)
    ensures |SettlePending(rows, id)| == |rows|
    ensures forall i :: 0 <= i < |rows| ==> SettlePending(rows, id)[i] == SettledRow(rows[i], id)
  {
    if rows != [] {
      SettlePendingRows(rows[..|rows| - 1], id);
    }
  }

  lemma {:induction false} DropPendingRows(rows: seq<LedgerRow>, id: Id)
    ensures forall row :: row in DropPending(rows, id) <==>
              row in rows && !AwaitsRequest(row, id)
  {
    if rows != [] {
      DropPendingRows(rows[..|rows| - 1], id);
      assert rows == rows[..|rows| - 1] + [rows[|rows| - 1]];
    }
  }

  /** after holds, in order, the rows that before has at the places kept. */
  predicate KeptAt(before: seq<LedgerRow>, after: seq<LedgerRow>, kept: seq<nat>) {
    && |after| == |kept| && Increasing(kept)
    && forall k :: 0 <= k < |kept| ==> kept[k] < |before| && after[k] == before[kept[k]]
  }

  /** Exactly the rows pending for the request have vanished from the table, the others are there in their order, and
      no settled balance of any kind has moved. */
  ghost predicate Released(before: seq<LedgerRow>, after: seq<LedgerRow>, id: Id) {
    && (exists kept: seq<nat> :: KeptAt(before, after, kept) && KeepsAllBut(before, kept, id))
    && (forall w: Where :: !w.isPending ==> Sum(after, w) == Sum(before, w))
  }

  predicate KeepsAllBut(before: seq<LedgerRow>, kept: seq<nat>, id: Id) {
    forall i: nat :: i < |before| ==> (i in kept <==> !AwaitsRequest(before[i], id))
  }

  predicate Increasing(kept: seq<nat>) {
    forall j, k :: 0 <= j < k < |kept| ==> kept[j] < kept[k]
  }

  lemma LastKept(kept: seq<nat>, n: nat)
    requires Increasing(kept) && n in kept && forall k :: 0 <= k < |kept| ==> kept[k] <= n
    ensures var m := |kept| - 1; kept[m] == n && forall i: nat :: i in kept[..m] <==> i in kept && i != n
  {
    var m := |kept| - 1;
    var k :| 0 <= k <= m && kept[k] == n;
    assert kept[k] <= kept[m] <= n;
    forall i: nat
      ensures i in kept[..m] <==> i in kept && i != n
    {
      assert kept == kept[..m] + [kept[m]];
    }
  }

  lemma KeepOneMore(rows: seq<LedgerRow>, kept: seq<nat>, id: Id)
    requires rows != [] && KeepsAllBut(rows[..|rows| - 1], kept, id) && forall i <- kept :: i < |rows| - 1
    ensures var n := |rows| - 1;
            KeepsAllBut(rows, if AwaitsRequest(rows[n], id) then kept else kept + [n], id)
  {
    var n := |rows| - 1;
    var more := if AwaitsRequest(rows[n], id) then kept else kept + [n];
    hide AwaitsRequest;
    forall i: nat | i < |rows|
      ensures i in more <==> !AwaitsRequest(rows[i], id)
    {
      if i < n {
        assert rows[..n][i] == rows[i];
      }
    }
  }

  lemma KeptOneMore(rows: seq<LedgerRow>, after: seq<LedgerRow>, kept: seq<nat>)
    requires rows != [] && KeptAt(rows[..|rows| - 1], after, kept)
    ensures var n := |rows| - 1;
            KeptAt(rows, after, kept) && KeptAt(rows, after + [rows[n]], kept + [n])
  {
    assert forall k :: 0 <= k < |kept| ==> rows[..|rows| - 1][kept[k]] == rows[kept[k]];
  }

  lemma KeptWithin(rows: seq<LedgerRow>, after: seq<LedgerRow>, kept: seq<nat>)
    requires KeptAt(rows, after, kept)
    ensures forall i <- kept :: i < |rows|
  {
  }

  lemma {:induction false} DropPendingKeeps(rows: seq<LedgerRow>, id: Id) returns (kept: seq<nat>)
    ensures KeptAt(rows, DropPending(rows, id), kept) && KeepsAllBut(rows, kept, id)
  {
    hide AwaitsRequest, KeepsAllBut, KeptAt;
    if rows == [] {
      kept := [];
      NothingKept(id);
    } else {
      var n := |rows| - 1;
      var rest := DropPendingKeeps(rows[..n], id);
      KeptWithin(rows[..n], DropPending(rows[..n], id), rest);
      KeepOneMore(rows, rest, id);
      KeptOneMore(rows, DropPending(rows[..n], id), rest);
      DropAppend(rows[..n], rows[n], id);
      assert rows == rows[..n] + [rows[n]];
      hide DropPending;
      assert DropPending(rows[..n], id) + [] == DropPending(rows[..n], id);
      kept := if AwaitsRequest(rows[n], id) then rest else rest + [n];
    }
  }

  lemma NothingKept(id: Id)
    ensures KeptAt([], [], []) && KeepsAllBut([], [], id)
  {
  }

  lemma DropPendingReleases(rows: seq<LedgerRow>, id: Id)
    ensures Released(rows, DropPending(rows, id), id)
  {
    var kept := DropPendingKeeps(rows, id);
    forall w: Where | !w.isPending
      ensures Sum(DropPending(rows, id), w) == Sum(rows, w)
    {
      DroppingKeeps(rows, id, w);
    }
  }

  lemma KeepOneLess(rows: seq<LedgerRow>, kept: seq<nat>, id: Id)
    requires rows != [] && KeepsAllBut(rows, kept, id)
    requires Increasing(kept) && forall k :: 0 <= k < |kept| ==> kept[k] < |rows|
    ensures var n, m := |rows| - 1, |kept| - 1;
            if AwaitsRequest(rows[n], id) then
              KeepsAllBut(rows[..n], kept, id) && forall k :: 0 <= k < |kept| ==> kept[k] < n
            else
              m >= 0 && kept[m] == n && KeepsAllBut(rows[..n], kept[..m], id)
  {
    hide AwaitsRequest;
    var n := |rows| - 1;
    if AwaitsRequest(rows[n], id) {
      assert forall k :: 0 <= k < |kept| ==> kept[k] in kept;
    } else {
      LastKept(kept, n);
    }
  }

  lemma NothingToKeep(after: seq<LedgerRow>, kept: seq<nat>)
    requires KeptAt([], after, kept)
    ensures after == [] && kept == []
  {
    if kept != [] {
      KeptPlace([], after, kept, 0);
    }
  }

  lemma KeptPlace(before: seq<LedgerRow>, after: seq<LedgerRow>, kept: seq<nat>, k: nat)
    requires KeptAt(before, after, kept) && k < |kept|
    ensures kept[k] < |before|
  {
  }

  /** That leaves only one possible table. */
  lemma {:induction false} KeptIsDropped(before: seq<LedgerRow>, after: seq<LedgerRow>, kept: seq<nat>, id: Id)
    requires KeptAt(before, after, kept) && KeepsAllBut(before, kept, id)
    ensures after == DropPending(before, id)
    decreases |before|
  {
    hide AwaitsRequest;
    if before == [] {
      NothingToKeep(after, kept);
    } else {
      var n, m := |before| - 1, |kept| - 1;
      KeepOneLess(before, kept, id);
      hide KeepsAllBut;
      if AwaitsRequest(before[n], id) {
        KeptIsDropped(before[..n], after, kept, id);
      } else {
        KeptIsDropped(before[..n], after[..m], kept[..m], id);
        assert after == after[..m] + [after[m]];
      }
    }
  }

  lemma ReleasedIsDropped(before: seq<LedgerRow>, after: seq<LedgerRow>, id: Id)
    requires Released(before, after, id)
    ensures after == DropPending(before, id)
  {
    var kept: seq<nat> :| KeptAt(before, after, kept) && KeepsAllBut(before, kept, id);
    KeptIsDropped(before, after, kept, id);
  }
}
