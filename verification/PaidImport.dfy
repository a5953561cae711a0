/**
 * Importing a wallet against payment (src/OpenMoneroRequests.cpp): import_wallet_request and select_payment over the
 * Payments and Accounts tables. Requests are handled one at a time; every database call may fail, the scanner moves the
 * accounts' heights between requests.
 */
module PaidImport {
  import opened Options

  type AccountId = nat

  // A row of Payments; rows are never deleted, and a row's id is its position.
  datatype Payment = Payment(accountId: AccountId, paymentId: string, importFee: nat, fulfilled: bool, txHash: string)

  // The part of a row of Accounts that the import resets.
  datatype Account = Account(scannedHeight: nat, startHeight: nat)

  // How a write to the database ends: done; not done; or done although the reply is an error.
  datatype Write = Done | Refused | Unreported

  // One request for an account, with everything that the outside world answers while it is handled.
  datatype Request = Request(
    account: AccountId,
    login: bool,
    // whether selecting the payments throws
    selectThrows: bool,
    // the random payment id, and the integrated address made of the stored one
    freshId: string,
    integratedAddress: string,
    // the transaction found by search_if_payment_made
    paymentMade: Option<string>,
    insertPayment: Write,
    updatePayment: Write,
    updateAccount: Write,
    // whether the account's search thread is there for set_new_searched_blk_no and for update_acc
    searchThread: bool,
    accThread: bool)

  datatype Outcome =
    | LoginFailed
    | SelectFailed
    | InsertFailed
    | Created
    | AlreadyImported
    | AddressFailed
    | NotYetPaid
    | PaymentUpdateFailed
    | AccountUpdateFailed
    | SearchFailed
    | AccFailed
    | Imported

  // The configured fee, and whether Payments has the unique keys that sql/openmonero.sql gives it.
  datatype Config = Config(importFee: nat, uniqueKeys: bool)

  // The two tables; and as history the accounts whose reset was stored, in order, and the accepted orders to the search
  // threads to start over at block 0.
  datatype Db = Db(payments: seq<Payment>, accounts: map<AccountId, Account>, resets: seq<AccountId>, rescans: seq<AccountId>)

  const RESET := Account(0, 0)

  // ---------- the tables ----------

  // The positions of an account's payments.
  function Positions(payments: seq<Payment>, a: AccountId): (p: seq<nat>)
    ensures forall k | 0 <= k < |p| :: p[k] < |payments| && payments[p[k]].accountId == a
    ensures forall i | 0 <= i < |payments| && payments[i].accountId == a :: i in p
    ensures forall j, k | 0 <= j < k < |p| :: p[j] < p[k]
  {
    if payments == [] then []
    else
      var n := |payments| - 1;
      Positions(payments[..n], a) + if payments[n].accountId == a then [n] else []
  }

  predicate ViolatesKey(payments: seq<Payment>, p: Payment) {
    exists i | 0 <= i < |payments| :: payments[i].accountId == p.accountId || payments[i].paymentId == p.paymentId
  }

  // insert of a payment: the new table and whether the caller is told an id
  function Insert(c: Config, payments: seq<Payment>, p: Payment, w: Write): (seq<Payment>, bool) {
    if w == Refused || (c.uniqueKeys && ViolatesKey(payments, p)) then (payments, false)
    else (payments + [p], w == Done)
  }

  // update of an account to RESET: the new state and whether the caller is told that one row was changed
  function ResetAccount(s: Db, a: AccountId, w: Write): (Db, bool)
    requires a in s.accounts
  {
    if w == Refused || s.accounts[a] == RESET then (s, false)
    else (s.(accounts := s.accounts[a := RESET], resets := s.resets + [a]), w == Done)
  }

  // ---------- the request ----------

  // select_payment: select answers false both for no rows and for an exception, and either counts as no payment yet
  function SelectedPayment(s: Db, r: Request): Option<Option<nat>> {
    var rows := if r.selectThrows then [] else Positions(s.payments, r.account);
    if |rows| > 1 then None
    else if |rows| == 0 then Some(None)
    else Some(Some(rows[0]))
  }

  // From the reset of the account on.
  function StartImport(s: Db, r: Request): (Db, Outcome)
    requires r.account in s.accounts
  {
    var (after, told) := ResetAccount(s, r.account, r.updateAccount);
    if !told then (after, AccountUpdateFailed)
    else if !r.searchThread then (after, SearchFailed)
    else
      var ordered := after.(rescans := after.rescans + [r.account]);
      (ordered, if r.accThread then Imported else AccFailed)
  }

  // import_wallet_request
  function Import(c: Config, s: Db, r: Request): (Db, Outcome) {
    if !r.login || r.account !in s.accounts then (s, LoginFailed)
    else if c.importFee == 0 then StartImport(s, r)
    else
      match SelectedPayment(s, r)
      case None => (s, SelectFailed)
      case Some(None) =>
        var (payments, told) := Insert(c, s.payments, Payment(r.account, r.freshId, c.importFee, false, ""), r.insertPayment);
        (s.(payments := payments), if told then Created else InsertFailed)
      case Some(Some(i)) =>
        if s.payments[i].fulfilled then (s, AlreadyImported)
        else if r.integratedAddress == "" then (s, AddressFailed)
        else
          match r.paymentMade
          case None => (s, NotYetPaid)
          case Some(txHash) =>
            if r.updatePayment == Refused then (s, PaymentUpdateFailed)
            else
              var paid := s.(payments := s.payments[i := s.payments[i].(fulfilled := true, txHash := txHash)]);
              if r.updatePayment == Unreported then (paid, PaymentUpdateFailed) else StartImport(paid, r)
  }

  class OpenMoneroRequests {
    const config: Config
    var payments: seq<Payment>
    var accounts: map<AccountId, Account>
    ghost var resets: seq<AccountId>
    ghost var rescans: seq<AccountId>

    constructor (config: Config, accounts: map<AccountId, Account>)
      ensures this.config == config && View() == Db([], accounts, [], [])
    {
      this.config := config;
      this.accounts := accounts;
      payments, resets, rescans := [], [], [];
    }

    ghost function View(): Db
      reads this
    {
      Db(payments, accounts, resets, rescans)
    }

    // import_wallet_request
    method ImportWalletRequest(r: Request) returns (out: Outcome)
      modifies this
      ensures (View(), out) == Import(config, old(View()), r)
    {
      if !r.login || r.account !in accounts {
        return LoginFailed;
      }
      if config.importFee == 0 {
        out := ResetAndSearch(r);
        return;
      }
      var payment := SelectPayment(r);
      if payment.None? {
        return SelectFailed;
      }
      if payment.value.None? {
        var told := InsertPayment(Payment(r.account, r.freshId, config.importFee, false, ""), r.insertPayment);
        return if told then Created else InsertFailed;
      }
      var i := payment.value.value;
      if payments[i].fulfilled {
        return AlreadyImported;
      }
      if r.integratedAddress == "" {
        return AddressFailed;
      }
      out := NotYetPaid;
      if r.paymentMade.Some? {
        if r.updatePayment != Refused {
          payments := payments[i := payments[i].(fulfilled := true, txHash := r.paymentMade.value)];
        }
        if r.updatePayment != Done {
          return PaymentUpdateFailed;
        }
        out := ResetAndSearch(r);
      }
    }

    // select_payment
    method SelectPayment(r: Request) returns (payment: Option<Option<nat>>)
      ensures payment == SelectedPayment(View(), r)
    {
      var rows := if r.selectThrows then [] else Positions(payments, r.account);
      if |rows| == 0 {
        return Some(None);
      }
      if |rows| > 1 {
        return None;
      }
      payment := Some(Some(rows[0]));
    }

    method InsertPayment(p: Payment, w: Write) returns (told: bool)
      modifies this`payments
      ensures (payments, told) == Insert(config, old(payments), p, w)
    {
      told := false;
      if w != Refused && !(config.uniqueKeys && ViolatesKey(payments, p)) {
        payments := payments + [p];
        told := w == Done;
      }
    }

    method ResetAndSearch(r: Request) returns (out: Outcome)
      requires r.account in accounts
      modifies this
      ensures (View(), out) == StartImport(old(View()), r)
    {
      if r.updateAccount == Refused || accounts[r.account] == RESET {
        return AccountUpdateFailed;
      }
      accounts, resets := accounts[r.account := RESET], resets + [r.account];
      if r.updateAccount == Unreported {
        return AccountUpdateFailed;
      }
      if !r.searchThread {
        return SearchFailed;
      }
      rescans := rescans + [r.account];
      out := if r.accThread then Imported else AccFailed;
    }
  }

  // ---------- what a request does, case by case ----------

  ghost predicate NoRow(s: Db, a: AccountId) {
    forall i | 0 <= i < |s.payments| :: s.payments[i].accountId != a
  }

  ghost predicate OnlyRowAt(s: Db, a: AccountId, i: nat) {
    && i < |s.payments| && s.payments[i].accountId == a
    && forall j | 0 <= j < |s.payments| && s.payments[j].accountId == a :: j == i
  }

  ghost predicate TwoRowsAt(s: Db, a: AccountId, i: nat, j: nat) {
    i < j < |s.payments| && s.payments[i].accountId == s.payments[j].accountId == a
  }

  lemma NoPositions(s: Db, a: AccountId)
    ensures NoRow(s, a) <==> Positions(s.payments, a) == []
  {
    var rows := Positions(s.payments, a);
    if rows != [] {
      assert s.payments[rows[0]].accountId == a;
    }
  }

  lemma OnePosition(s: Db, a: AccountId, i: nat)
    requires OnlyRowAt(s, a, i)
    ensures Positions(s.payments, a) == [i]
  {
    var rows := Positions(s.payments, a);
    assert i in rows && forall k | 0 <= k < |rows| :: rows[k] == i;
    FirstTwoDiffer(rows);
  }

  lemma FirstTwoDiffer(rows: seq<nat>)
    requires forall j, k | 0 <= j < k < |rows| :: rows[j] < rows[k]
    ensures |rows| > 1 ==> rows[0] != rows[1]
  {
  }

  lemma TwoPositions(s: Db, a: AccountId)
    ensures (exists i: nat, j: nat :: TwoRowsAt(s, a, i, j)) <==> |Positions(s.payments, a)| > 1
  {
    var rows := Positions(s.payments, a);
    if |rows| > 1 {
      assert TwoRowsAt(s, a, rows[0], rows[1]);
    }
    if i: nat, j: nat :| TwoRowsAt(s, a, i, j) {
      assert i in rows && j in rows;
    }
  }

  // Without a row, or when selecting throws, the request stores the account's unpaid row, unless the write or a unique key
  // refuses it; the user is told so exactly when the write is acknowledged as well.
  lemma FirstRequest(c: Config, s: Db, r: Request)
    requires c.importFee > 0 && r.login && r.account in s.accounts && (r.selectThrows || NoRow(s, r.account))
    ensures var p := Payment(r.account, r.freshId, c.importFee, false, "");
            var taken := exists i | 0 <= i < |s.payments| ::
                           s.payments[i].accountId == r.account || s.payments[i].paymentId == r.freshId;
            var stored := r.insertPayment != Refused && !(c.uniqueKeys && taken);
            Import(c, s, r) == (if stored then s.(payments := s.payments + [p]) else s,
                                if stored && r.insertPayment == Done then Created else InsertFailed)
  {
    NoPositions(s, r.account);
    hide Positions;
  }

  // With its one row fulfilled the request changes nothing and says so.
  lemma FulfilledRequest(c: Config, s: Db, r: Request, i: nat)
    requires c.importFee > 0 && r.login && r.account in s.accounts && !r.selectThrows && OnlyRowAt(s, r.account, i)
    requires s.payments[i].fulfilled
    ensures Import(c, s, r) == (s, AlreadyImported)
  {
    OnePosition(s, r.account, i);
    hide Positions;
  }

  // With its one row unpaid the request fulfils it with the transaction found, exactly when there is an address, a payment
  // and no refusal; what follows depends on each call in turn.
  lemma UnpaidRequest(c: Config, s: Db, r: Request, i: nat)
    requires c.importFee > 0 && r.login && r.account in s.accounts && !r.selectThrows && OnlyRowAt(s, r.account, i)
    requires !s.payments[i].fulfilled
    ensures var (t, outcome) := Import(c, s, r);
            var paid := r.integratedAddress != "" && r.paymentMade.Some? && r.updatePayment != Refused;
            var started := paid && r.updatePayment == Done;
            var reset := started && r.updateAccount != Refused && s.accounts[r.account] != Account(0, 0);
            var told := reset && r.updateAccount == Done;
            && t.payments == (if paid then s.payments[i := s.payments[i].(fulfilled := true, txHash := r.paymentMade.value)]
                              else s.payments)
            && t.accounts == (if reset then s.accounts[r.account := Account(0, 0)] else s.accounts)
            && t.resets == (if reset then s.resets + [r.account] else s.resets)
            && t.rescans == (if told && r.searchThread then s.rescans + [r.account] else s.rescans)
            && outcome == if r.integratedAddress == "" then AddressFailed
                          else if r.paymentMade.None? then NotYetPaid
                          else if !started then PaymentUpdateFailed
                          else if !told then AccountUpdateFailed
                          else if !r.searchThread then SearchFailed
                          else if !r.accThread then AccFailed
                          else Imported
  {
    OnePosition(s, r.account, i);
    hide Positions;
  }

  // A refused login, or two rows, and nothing changes.
  lemma RefusedRequest(c: Config, s: Db, r: Request)
    ensures !r.login || r.account !in s.accounts ==> Import(c, s, r) == (s, LoginFailed)
    ensures r.login && r.account in s.accounts && c.importFee > 0 && !r.selectThrows ==>
              ((exists i: nat, j: nat :: TwoRowsAt(s, r.account, i, j)) <==> Import(c, s, r).1 == SelectFailed)
    ensures Import(c, s, r).1 == SelectFailed ==> Import(c, s, r).0 == s
  {
    TwoPositions(s, r.account);
    hide Positions;
  }

  // Without a fee the account is reset at once; payments are not looked at.
  lemma FreeRequest(c: Config, s: Db, r: Request)
    requires c.importFee == 0 && r.login && r.account in s.accounts
    ensures var reset := r.updateAccount != Refused && s.accounts[r.account] != Account(0, 0);
            var told := reset && r.updateAccount == Done;
            Import(c, s, r)
            == (s.(accounts := if reset then s.accounts[r.account := Account(0, 0)] else s.accounts,
                   resets := if reset then s.resets + [r.account] else s.resets,
                   rescans := if told && r.searchThread then s.rescans + [r.account] else s.rescans),
                if !told then AccountUpdateFailed
                else if !r.searchThread then SearchFailed
                else if !r.accThread then AccFailed
                else Imported)
  {
  }

  // ---------- all runs ----------

  datatype Step =
    | Handle(r: Request)
    // the scanner stores how far it came
    | Scanned(a: AccountId, height: nat)

  function Next(c: Config, s: Db, step: Step): Db {
    match step
    case Handle(r) => Import(c, s, r).0
    case Scanned(a, height) =>
      if a in s.accounts then s.(accounts := s.accounts[a := s.accounts[a].(scannedHeight := height)]) else s
  }

  function Run(c: Config, s: Db, steps: seq<Step>): Db
    decreases |steps|
  {
    if steps == [] then s else Run(c, Next(c, s, steps[0]), steps[1..])
  }

  ghost predicate OneRowEach(payments: seq<Payment>) {
    forall i, j | 0 <= i < j < |payments| :: payments[i].accountId != payments[j].accountId
  }

  predicate Paid(payments: seq<Payment>, a: AccountId) {
    exists i | 0 <= i < |payments| :: payments[i].accountId == a && payments[i].fulfilled
  }

  // No account was reset twice, and only accounts with a fulfilled payment were reset.
  ghost predicate ResetsPaidOnce(s: Db) {
    && (forall i, j | 0 <= i < j < |s.resets| :: s.resets[i] != s.resets[j])
    && (forall i | 0 <= i < |s.resets| :: Paid(s.payments, s.resets[i]))
  }

  // Rows stay, keep their account, id and fee, and a fulfilled row stays as it is.
  ghost predicate RowsKept(before: seq<Payment>, after: seq<Payment>) {
    && |before| <= |after|
    && forall i | 0 <= i < |before| ::
         && after[i] == before[i].(fulfilled := after[i].fulfilled, txHash := after[i].txHash)
         && (before[i].fulfilled ==> after[i] == before[i])
  }

  // How a request can change payments and resets: not at all; by a new unpaid row; or by fulfilling the account's only
  // row, after which the account may be reset.
  lemma Changes(c: Config, s: Db, r: Request)
    requires c.importFee > 0
    ensures var t := Import(c, s, r).0;
            var picked := SelectedPayment(s, r);
            || (t.payments == s.payments && t.resets == s.resets)
            || (picked == Some(None) && t.resets == s.resets
                && t.payments == s.payments + [Payment(r.account, r.freshId, c.importFee, false, "")]
                && (c.uniqueKeys ==> !ViolatesKey(s.payments, Payment(r.account, r.freshId, c.importFee, false, ""))))
            || (picked.Some? && picked.value.Some? && r.paymentMade.Some?
                && var i := picked.value.value;
                && !s.payments[i].fulfilled
                && t.payments == s.payments[i := s.payments[i].(fulfilled := true, txHash := r.paymentMade.value)]
                && (t.resets == s.resets || t.resets == s.resets + [r.account]))
  {
    hide Positions, ViolatesKey;
  }

  // The picked row is the only one of its account.
  lemma OnlyRow(s: Db, r: Request, i: nat)
    requires SelectedPayment(s, r) == Some(Some(i))
    ensures i < |s.payments| && s.payments[i].accountId == r.account
    ensures forall j | 0 <= j < |s.payments| && s.payments[j].accountId == r.account :: j == i
  {
  }

  lemma FulfilKeeps(s: Db, i: nat, txHash: string, t: Db)
    requires i < |s.payments| && !s.payments[i].fulfilled
    requires forall j | 0 <= j < |s.payments| && s.payments[j].accountId == s.payments[i].accountId :: j == i
    requires t.payments == s.payments[i := s.payments[i].(fulfilled := true, txHash := txHash)]
    requires t.resets == s.resets || t.resets == s.resets + [s.payments[i].accountId]
    ensures RowsKept(s.payments, t.payments)
    ensures ResetsPaidOnce(s) ==> ResetsPaidOnce(t)
  {
  }

  lemma PaidKept(before: seq<Payment>, after: seq<Payment>)
    requires RowsKept(before, after)
    ensures forall a :: Paid(before, a) ==> Paid(after, a)
  {
  }

  // Whatever fails: no row is lost, no fulfilled payment reverts, no account is reset twice or unpaid, and with the unique
  // key on account_id no account gets a second row.
  lemma StepKeeps(c: Config, s: Db, step: Step)
    requires c.importFee > 0
    ensures var t := Next(c, s, step);
            && RowsKept(s.payments, t.payments)
            && (ResetsPaidOnce(s) ==> ResetsPaidOnce(t))
            && (c.uniqueKeys && OneRowEach(s.payments) ==> OneRowEach(t.payments))
  {
    if step.Handle? {
      var r, t := step.r, Next(c, s, step);
      Changes(c, s, r);
      hide Import, ViolatesKey, Positions;
      var picked := SelectedPayment(s, r);
      if t.payments == s.payments && t.resets == s.resets {
      } else if picked == Some(None) {
        InsertKeeps(c, s, Payment(r.account, r.freshId, c.importFee, false, ""), t);
      } else {
        OnlyRow(s, r, picked.value.value);
        FulfilKeeps(s, picked.value.value, r.paymentMade.value, t);
      }
    }
  }

  lemma InsertKeeps(c: Config, s: Db, p: Payment, t: Db)
    requires t.resets == s.resets && t.payments == s.payments + [p]
    requires c.uniqueKeys ==> !ViolatesKey(s.payments, p)
    ensures RowsKept(s.payments, t.payments)
    ensures ResetsPaidOnce(s) ==> ResetsPaidOnce(t)
    ensures c.uniqueKeys && OneRowEach(s.payments) ==> OneRowEach(t.payments)
  {
  }

  lemma RowsKeptTwice(a: seq<Payment>, b: seq<Payment>, c: seq<Payment>)
    requires RowsKept(a, b) && RowsKept(b, c)
    ensures RowsKept(a, c)
  {
  }

  lemma {:induction false} RunKeeps(c: Config, s: Db, steps: seq<Step>)
    requires c.importFee > 0
    ensures var t := Run(c, s, steps);
            && RowsKept(s.payments, t.payments)
            && (ResetsPaidOnce(s) ==> ResetsPaidOnce(t))
            && (c.uniqueKeys && OneRowEach(s.payments) ==> OneRowEach(t.payments))
    decreases |steps|
  {
    if steps != [] {
      hide RowsKept, ResetsPaidOnce, OneRowEach, Next;
      var next := Next(c, s, steps[0]);
      StepKeeps(c, s, steps[0]);
      RunKeeps(c, next, steps[1..]);
      RowsKeptTwice(s.payments, next.payments, Run(c, s, steps).payments);
    }
  }

  // Whatever requests come, and whichever database calls fail or lose their reply: each account has at most one payment
  // row, thanks to the table's unique key; an account is reset at most once, and only once its payment is fulfilled.
  lemma AlwaysSafe(c: Config, accounts: map<AccountId, Account>, steps: seq<Step>)
    requires c.importFee > 0
    ensures var t := Run(c, Db([], accounts, [], []), steps);
            ResetsPaidOnce(t) && (c.uniqueKeys ==> OneRowEach(t.payments))
  {
    RunKeeps(c, Db([], accounts, [], []), steps);
  }

  // A fulfilled payment stays fulfilled, with its transaction.
  lemma FulfilledForever(c: Config, s: Db, steps: seq<Step>, i: nat)
    requires c.importFee > 0 && i < |s.payments| && s.payments[i].fulfilled
    ensures i < |Run(c, s, steps).payments| && Run(c, s, steps).payments[i] == s.payments[i]
  {
    RunKeeps(c, s, steps);
  }

  // The code alone does not keep an account from getting a second row: it gets one exactly when there is no unique key,
  // selecting its payment throws, and the insert goes through.
  lemma SecondRow(c: Config, s: Db, r: Request)
    requires c.importFee > 0 && OneRowEach(s.payments)
    ensures !OneRowEach(Import(c, s, r).0.payments)
            <==> && !c.uniqueKeys && r.login && r.account in s.accounts
                 && r.selectThrows && r.insertPayment != Refused && Positions(s.payments, r.account) != []
  {
    var p := Payment(r.account, r.freshId, c.importFee, false, "");
    AppendedRow(s.payments, p);
    hide Positions, ViolatesKey, ResetAccount;
    if r.login && r.account in s.accounts && SelectedPayment(s, r) == Some(None) {
      StepKeeps(c, s, Handle(r));
    } else {
      NoNewRow(c, s, r);
    }
  }

  lemma NoNewRow(c: Config, s: Db, r: Request)
    requires c.importFee > 0 && OneRowEach(s.payments)
    requires !r.login || r.account !in s.accounts || SelectedPayment(s, r) != Some(None)
    ensures OneRowEach(Import(c, s, r).0.payments)
  {
    hide Positions, ViolatesKey;
  }

  lemma AppendedRow(payments: seq<Payment>, p: Payment)
    requires OneRowEach(payments)
    ensures OneRowEach(payments + [p]) <==> Positions(payments, p.accountId) == []
    ensures |Positions(payments, p.accountId)| <= 1
  {
    var rows := Positions(payments, p.accountId);
    if rows != [] {
      var after := payments + [p];
      assert after[rows[0]].accountId == after[|payments|].accountId;
    } else {
      assert forall i | 0 <= i < |payments| :: payments[i].accountId == p.accountId ==> i in rows;
    }
  }

  // The request that stores the payment as fulfilled resets the account exactly when both updates go through and the
  // first one is acknowledged; an account that stands at block 0 already counts as a failed update.
  lemma ResetWithPayment(c: Config, s: Db, r: Request)
    requires c.importFee > 0 && ResetsPaidOnce(s) && !Paid(s.payments, r.account)
    requires Paid(Import(c, s, r).0.payments, r.account)
    ensures r.account in s.accounts
    ensures r.account in Import(c, s, r).0.resets
            <==> r.updatePayment == Done && r.updateAccount != Refused && s.accounts[r.account] != RESET
  {
    hide Positions, SelectedPayment, ViolatesKey, Paid, ResetsPaidOnce;
    NotYetReset(s, r.account);
    UnpaidRow(s.payments, Payment(r.account, r.freshId, c.importFee, false, ""));
  }

  lemma NotYetReset(s: Db, a: AccountId)
    requires ResetsPaidOnce(s) && !Paid(s.payments, a)
    ensures a !in s.resets
  {
  }

  lemma UnpaidRow(payments: seq<Payment>, p: Payment)
    requires !Paid(payments, p.accountId) && !p.fulfilled
    ensures !Paid(payments + [p], p.accountId)
  {
  }

  // The search thread is told to start over only when the account's reset was stored and acknowledged; the request reports
  // an import only when all of it worked.
  lemma SearchOrdered(c: Config, s: Db, r: Request)
    requires c.importFee > 0
    ensures var (t, outcome) := Import(c, s, r);
            && (t.rescans == s.rescans || (t.rescans == s.rescans + [r.account] && t.resets == s.resets + [r.account]))
            && (outcome == Imported ==>
                  && t.rescans == s.rescans + [r.account] && Paid(t.payments, r.account)
                  && r.account in t.accounts && t.accounts[r.account] == RESET)
  {
    hide Positions, ViolatesKey;
    var picked := SelectedPayment(s, r);
    if Import(c, s, r).1 == Imported {
      var i, t := picked.value.value, Import(c, s, r).0;
      assert t.payments[i].accountId == r.account && t.payments[i].fulfilled;
    }
  }

  // An account that has paid without being reset is never reset by a later request.
  lemma {:induction false} NeverResetLater(c: Config, s: Db, steps: seq<Step>, a: AccountId)
    requires c.importFee > 0 && Paid(s.payments, a) && a !in s.resets
    ensures Paid(Run(c, s, steps).payments, a) && a !in Run(c, s, steps).resets
    decreases |steps|
  {
    if steps != [] {
      var next := Next(c, s, steps[0]);
      StepKeeps(c, s, steps[0]);
      PaidKept(s.payments, next.payments);
      if steps[0].Handle? {
        PaidAccountNotReset(c, s, steps[0].r, a);
      }
      hide Next, Paid, RowsKept;
      NeverResetLater(c, next, steps[1..], a);
    }
  }

  lemma PaidAccountNotReset(c: Config, s: Db, r: Request, a: AccountId)
    requires c.importFee > 0 && Paid(s.payments, a) && a !in s.resets
    ensures a !in Import(c, s, r).0.resets
  {
    Changes(c, s, r);
    hide Import, ViolatesKey, Positions;
    var picked := SelectedPayment(s, r);
    if picked.Some? && picked.value.Some? && r.account == a {
      OnlyRow(s, r, picked.value.value);
    }
  }
}
