/** The invoice status processor: every pass fetches the pending invoices
    and settles each one with a random attempt. A success marks the invoice
    `success`; a failure counts one more retry and marks it `error` once the
    retries reach the configured maximum, and leaves it `pending` otherwise.
    The `Invoices` table is a sequence of rows held by a class; the random
    draw of each attempt is an input. */
module Invoices {
  import opened Text

  const MinInt32: int := -0x8000_0000
  const MaxInt32: int := 0x7fff_ffff

  /** The C# `int`. */
  type Int32 = x: int | MinInt32 <= x <= MaxInt32

  /** `x + 1` in unchecked 32-bit arithmetic. */
  function Increment32(x: Int32): (r: Int32)
    ensures x < MaxInt32 ==> r == x + 1
    ensures x == MaxInt32 ==> r == MinInt32
  {
    if x == MaxInt32 then MinInt32 else x + 1
  }

  const Pending: string := "pending"
  const Success: string := "success"
  const Error: string := "error"

  /** A draw of `random.Next(100)` below this succeeds. */
  const SuccessThreshold: int := 30

  /** A row of `Invoices`; the amount and the timestamps play no part. */
  datatype Invoice = Invoice(id: Int32, bankName: string, status: string, retryCount: Int32)

  /** One `UpdateInvoice(id, status, retryCount)` call. */
  datatype StatusUpdate = StatusUpdate(id: Int32, status: string, retryCount: Int32)

  /** No two rows share an id: `Id` is taken to be the table's primary
      key, which the schema, outside this model, would enforce. */
  predicate UniqueIds(rows: seq<Invoice>) {
    forall i, j :: 0 <= i < j < |rows| ==> rows[i].id != rows[j].id
  }

  /** `GetPendingInvoices`: the rows whose status is `pending`, in table
      order. */
  function PendingRows(rows: seq<Invoice>): (r: seq<Invoice>)
    ensures |r| <= |rows|
    ensures forall x | x in r :: x in rows && x.status == Pending
    ensures forall i :: 0 <= i < |rows| && rows[i].status == Pending ==> rows[i] in r
  {
    if rows == [] then []
    else
      var last := rows[|rows| - 1];
      PendingRows(rows[..|rows| - 1]) + (if last.status == Pending then [last] else [])
  }

  /** A table whose ids are distinct yields fetched invoices whose ids are
      distinct. */
  lemma {:induction false} PendingUniqueIds(rows: seq<Invoice>)
    requires UniqueIds(rows)
    ensures UniqueIds(PendingRows(rows))
  {
    if rows != [] {
      var init := rows[..|rows| - 1];
      var last := rows[|rows| - 1];
      assert UniqueIds(init);
      PendingUniqueIds(init);
      var p := PendingRows(init);
      forall x | x in p ensures x.id != last.id {
        var i :| 0 <= i < |init| && init[i] == x;
        assert rows[i] == x;
      }
      if last.status == Pending {
        var q := p + [last];
        forall i, j | 0 <= i < j < |q| ensures q[i].id != q[j].id {
          if j == |p| {
            assert q[i] in p;
          } else {
            assert q[i] == p[i] && q[j] == p[j];
          }
        }
      } else {
        assert PendingRows(rows) == p + [];
      }
    }
  }

  /** The update the loop issues for one invoice: a success keeps the retry
      count; a failure adds exactly one retry (below the 32-bit maximum) and
      gives `error` exactly when the new count reaches the maximum, `pending`
      exactly when it stays below. */
  function Settle(invoice: Invoice, success: bool, maxErrorRetries: Int32): (u: StatusUpdate)
    ensures u.id == invoice.id
    ensures u.status == Success <==> success
    ensures success ==> u.retryCount == invoice.retryCount
    ensures !success && invoice.retryCount < MaxInt32 ==> u.retryCount == invoice.retryCount + 1
    ensures !success ==> (u.status == Error <==> u.retryCount >= maxErrorRetries)
    ensures !success ==> (u.status == Pending <==> u.retryCount < maxErrorRetries)
  {
    if success then StatusUpdate(invoice.id, Success, invoice.retryCount)
    else
      var newRetry := Increment32(invoice.retryCount);
      if newRetry >= maxErrorRetries then StatusUpdate(invoice.id, Error, newRetry)
      else StatusUpdate(invoice.id, Pending, newRetry)
  }

  /** The updates of one pass over the fetched invoices, in fetch order; the
      `k`-th attempt succeeds when the `k`-th draw is below the threshold. */
  function PassUpdates(invoices: seq<Invoice>, draws: nat -> int, maxErrorRetries: Int32): (r: seq<StatusUpdate>)
    ensures |r| == |invoices|
    ensures forall k :: 0 <= k < |r| ==> r[k] == Settle(invoices[k], draws(k) < SuccessThreshold, maxErrorRetries)
  {
    if invoices == [] then []
    else
      var k := |invoices| - 1;
      PassUpdates(invoices[..k], draws, maxErrorRetries) + [Settle(invoices[k], draws(k) < SuccessThreshold, maxErrorRetries)]
  }

  /** A row after an update of its id. */
  function Updated(row: Invoice, u: StatusUpdate): Invoice {
    row.(status := u.status, retryCount := u.retryCount)
  }

  /** `UPDATE Invoices SET ... WHERE Id = @id`: every row with that id takes
      the new status and count; the others are left alone. */
  function ApplyUpdate(rows: seq<Invoice>, u: StatusUpdate): (r: seq<Invoice>)
    ensures |r| == |rows|
    ensures forall i :: 0 <= i < |rows| ==> r[i].id == rows[i].id
  {
    seq(|rows|, i requires 0 <= i < |rows| => if rows[i].id == u.id then Updated(rows[i], u) else rows[i])
  }

  /** The updates applied one after another. */
  function ApplyAll(rows: seq<Invoice>, us: seq<StatusUpdate>): (r: seq<Invoice>)
    ensures |r| == |rows|
    ensures forall i :: 0 <= i < |rows| ==> r[i].id == rows[i].id
  {
    if us == [] then rows
    else ApplyUpdate(ApplyAll(rows, us[..|us| - 1]), us[|us| - 1])
  }

  /** The last update of an id, if any. */
  function LastFor(us: seq<StatusUpdate>, id: Int32): Option<StatusUpdate> {
    if us == [] then None
    else if us[|us| - 1].id == id then Some(us[|us| - 1])
    else LastFor(us[..|us| - 1], id)
  }

  /** After a series of updates a row carries the last update of its id,
      or is unchanged when there is none. */
  lemma {:induction false} ApplyAllRow(rows: seq<Invoice>, us: seq<StatusUpdate>, i: nat)
    requires i < |rows|
    ensures ApplyAll(rows, us)[i] == match LastFor(us, rows[i].id)
      case None => rows[i]
      case Some(u) => Updated(rows[i], u)
  {
    if us != [] {
      ApplyAllRow(rows, us[..|us| - 1], i);
    }
  }

  /** In a series with distinct ids, the last update of the `k`-th id is the
      `k`-th update. */
  lemma {:induction false} LastForDistinct(us: seq<StatusUpdate>, k: nat)
    requires k < |us|
    requires forall a, b :: 0 <= a < b < |us| ==> us[a].id != us[b].id
    ensures LastFor(us, us[k].id) == Some(us[k])
  {
    if k != |us| - 1 {
      LastForDistinct(us[..|us| - 1], k);
    }
  }

  /** An id no update names has no last update. */
  lemma {:induction false} LastForAbsent(us: seq<StatusUpdate>, id: Int32)
    requires forall k :: 0 <= k < |us| ==> us[k].id != id
    ensures LastFor(us, id) == None
  {
    if us != [] {
      LastForAbsent(us[..|us| - 1], id);
    }
  }

  /** One pass over a table with a primary key: a row that is not pending
      is left exactly as it was (so `success` and `error` are final), and a
      pending row is settled exactly once, by the attempt of its position in
      the fetch. */
  lemma PassEffect(rows: seq<Invoice>, draws: nat -> int, maxErrorRetries: Int32, i: nat)
    requires UniqueIds(rows) && i < |rows|
    ensures var fetched := PendingRows(rows);
      var after := ApplyAll(rows, PassUpdates(fetched, draws, maxErrorRetries));
      && (rows[i].status != Pending ==> after[i] == rows[i])
      && (rows[i].status == Pending ==>
            exists k :: 0 <= k < |fetched| && fetched[k] == rows[i]
              && after[i] == Updated(rows[i], Settle(rows[i], draws(k) < SuccessThreshold, maxErrorRetries)))
  {
    var fetched := PendingRows(rows);
    var us := PassUpdates(fetched, draws, maxErrorRetries);
    ApplyAllRow(rows, us, i);
    if rows[i].status != Pending {
      forall k | 0 <= k < |us| ensures us[k].id != rows[i].id {
        assert fetched[k] in rows;
        var j :| 0 <= j < |rows| && rows[j] == fetched[k];
        assert j != i;
      }
      LastForAbsent(us, rows[i].id);
    } else {
      var k :| 0 <= k < |fetched| && fetched[k] == rows[i];
      PendingUniqueIds(rows);
      LastForDistinct(us, k);
    }
  }

  /** `n` passes in which the invoice's attempt fails; once it is no longer
      pending it is not fetched again. */
  function FailedPasses(invoice: Invoice, n: nat, maxErrorRetries: Int32): Invoice
    decreases n
  {
    if n == 0 || invoice.status != Pending then invoice
    else FailedPasses(Updated(invoice, Settle(invoice, false, maxErrorRetries)), n - 1, maxErrorRetries)
  }

  /** An invoice below the maximum that keeps failing stays pending for
      `maxErrorRetries - retryCount - 1` passes, one retry more each time, and
      is in `error` with the count at the maximum from then on. */
  lemma {:induction false} RetriesEndInError(invoice: Invoice, n: nat, maxErrorRetries: Int32)
    requires invoice.status == Pending && invoice.retryCount < maxErrorRetries
    ensures var after := FailedPasses(invoice, n, maxErrorRetries);
      && (invoice.retryCount + n < maxErrorRetries ==> after.status == Pending && after.retryCount == invoice.retryCount + n)
      && (invoice.retryCount + n >= maxErrorRetries ==> after.status == Error && after.retryCount == maxErrorRetries)
    decreases n
  {
    if n > 0 {
      var next := Updated(invoice, Settle(invoice, false, maxErrorRetries));
      if invoice.retryCount + 1 < maxErrorRetries {
        RetriesEndInError(next, n - 1, maxErrorRetries);
      } else {
        assert next.status == Error;
        assert FailedPasses(next, n - 1, maxErrorRetries) == next;
      }
    }
  }

  /** The `Invoices` table and the updates issued against it. */
  class InvoiceTable {
    var rows: seq<Invoice>
    var updates: seq<StatusUpdate>

    ghost predicate Valid()
      reads this
    {
      UniqueIds(rows)
    }

    constructor(initial: seq<Invoice>)
      requires UniqueIds(initial)
      ensures rows == initial && updates == [] && Valid()
    {
      rows := initial;
      updates := [];
    }

    /** `GetPendingInvoices`: reads the table row by row, keeping the
        pending ones. */
    method GetPendingInvoices() returns (invoices: seq<Invoice>)
      ensures invoices == PendingRows(rows)
    {
      invoices := [];
      var i := 0;
      while i < |rows|
        invariant 0 <= i <= |rows|
        invariant invoices == PendingRows(rows[..i])
      {
        assert rows[..i + 1][..i] == rows[..i];
        if rows[i].status == Pending {
          invoices := invoices + [rows[i]];
        }
        i := i + 1;
      }
      assert rows[..i] == rows;
    }

    /** `UpdateInvoice`. */
    method UpdateInvoice(id: Int32, status: string, retryCount: Int32)
      requires Valid()
      modifies this
      ensures Valid()
      ensures rows == ApplyUpdate(old(rows), StatusUpdate(id, status, retryCount))
      ensures updates == old(updates) + [StatusUpdate(id, status, retryCount)]
    {
      SameIdsUnique(rows, ApplyUpdate(rows, StatusUpdate(id, status, retryCount)));
      rows := ApplyUpdate(rows, StatusUpdate(id, status, retryCount));
      updates := updates + [StatusUpdate(id, status, retryCount)];
    }

    /** The body of the `foreach`: settle one invoice with the outcome of
        its attempt and issue the update. */
    method SettleInvoice(invoice: Invoice, success: bool, maxErrorRetries: Int32)
      requires Valid()
      modifies this
      ensures Valid()
      ensures rows == ApplyUpdate(old(rows), Settle(invoice, success, maxErrorRetries))
      ensures updates == old(updates) + [Settle(invoice, success, maxErrorRetries)]
    {
      if success {
        UpdateInvoice(invoice.id, Success, invoice.retryCount);
      } else {
        var newRetry := Increment32(invoice.retryCount);
        if newRetry >= maxErrorRetries {
          UpdateInvoice(invoice.id, Error, newRetry);
        } else {
          UpdateInvoice(invoice.id, Pending, newRetry);
        }
      }
    }

    /** One pass of the `while (true)` loop: fetch the pending invoices and
        issue one update for each, in fetch order. */
    method ProcessPending(draws: nat -> int, maxErrorRetries: Int32)
      requires Valid()
      modifies this
      ensures Valid()
      ensures updates == old(updates) + PassUpdates(PendingRows(old(rows)), draws, maxErrorRetries)
      ensures rows == ApplyAll(old(rows), PassUpdates(PendingRows(old(rows)), draws, maxErrorRetries))
    {
      var invoices := GetPendingInvoices();
      ghost var start := rows;
      ghost var log := updates;
      var k := 0;
      while k < |invoices|
        invariant 0 <= k <= |invoices|
        invariant Valid()
        invariant updates == log + PassUpdates(invoices[..k], draws, maxErrorRetries)
        invariant rows == ApplyAll(start, PassUpdates(invoices[..k], draws, maxErrorRetries))
      {
        var success := draws(k) < SuccessThreshold;
        SettleInvoice(invoices[k], success, maxErrorRetries);
        PassStep(start, log, invoices, draws, maxErrorRetries, k);
        k := k + 1;
      }
      assert invoices[..k] == invoices;
    }
  }

  /** Settling the next fetched invoice extends both the rows and the
      update log by the updates of a fetch prefix one invoice longer. */
  lemma PassStep(start: seq<Invoice>, log: seq<StatusUpdate>, invoices: seq<Invoice>,
                 draws: nat -> int, maxErrorRetries: Int32, k: nat)
    requires k < |invoices|
    ensures var u := Settle(invoices[k], draws(k) < SuccessThreshold, maxErrorRetries);
      && ApplyUpdate(ApplyAll(start, PassUpdates(invoices[..k], draws, maxErrorRetries)), u)
         == ApplyAll(start, PassUpdates(invoices[..k + 1], draws, maxErrorRetries))
      && log + PassUpdates(invoices[..k], draws, maxErrorRetries) + [u]
         == log + PassUpdates(invoices[..k + 1], draws, maxErrorRetries)
  {
    PassUpdatesSnoc(invoices, draws, maxErrorRetries, k);
    ApplyAllSnoc(start, PassUpdates(invoices[..k], draws, maxErrorRetries),
      Settle(invoices[k], draws(k) < SuccessThreshold, maxErrorRetries));
  }

  lemma PassUpdatesSnoc(invoices: seq<Invoice>, draws: nat -> int, maxErrorRetries: Int32, k: nat)
    requires k < |invoices|
    ensures PassUpdates(invoices[..k + 1], draws, maxErrorRetries)
      == PassUpdates(invoices[..k], draws, maxErrorRetries) + [Settle(invoices[k], draws(k) < SuccessThreshold, maxErrorRetries)]
  {
    assert invoices[..k + 1][..k] == invoices[..k];
  }

  /** Applying one more update. */
  lemma ApplyAllSnoc(rows: seq<Invoice>, us: seq<StatusUpdate>, u: StatusUpdate)
    ensures ApplyAll(rows, us + [u]) == ApplyUpdate(ApplyAll(rows, us), u)
  {
    assert (us + [u])[..|us|] == us;
  }

  /** Rows with the same ids as a table with a primary key have one too. */
  lemma SameIdsUnique(a: seq<Invoice>, b: seq<Invoice>)
    requires UniqueIds(a) && |a| == |b|
    requires forall i :: 0 <= i < |a| ==> b[i].id == a[i].id
    ensures UniqueIds(b)
  {
  }
}
