/** Properties of the account service across several calls: replay of a
    completed key, at-most-once application of a key, additivity of
    balances, the one-account-per-user rule, the replay of a completed
    deletion, the lagging cache, and the KeyID-wide completion. */
module AccountProperties {
  import opened Errors
  import opened Ids
  import opened Ledger
  import opened Retry
  import opened AccountService

  // ------------------------------------------------------------ CreateAccount

  /** A second CreateAccount with the same key returns the account the first
      one created, whatever body it carries, and changes nothing. */
  lemma CreateAccountReplaysOriginal(st: State, user: User, again: User, keyId: Uuid, envs: seq<Env>, retryEnvs: seq<Env>)
    requires |envs| == MaxRetries && |retryEnvs| == MaxRetries
    requires again.userId == user.userId
    requires AccountService.CreateAccount(st, user, keyId, user.userId, envs).result.Ok?
    requires !Fails(retryEnvs[0], Begin) && !Fails(retryEnvs[0], ClaimKey)
    ensures var first := AccountService.CreateAccount(st, user, keyId, user.userId, envs);
      var second := AccountService.CreateAccount(first.state, again, keyId, user.userId, retryEnvs);
      second.result == first.result && second.state == first.state
  {
    var first := AccountService.CreateAccount(st, user, keyId, user.userId, envs);
    assert Records(first.state.db, keyId, user.userId, AccountJson(first.result.value));
    assert DecodeAccount(AccountJson(first.result.value)) == Some(first.result.value);
  }

  /** The account id is the user id, so a user who already has an account
      cannot open another with a fresh key. */
  lemma SecondAccountRejected(st: State, user: User, keyId: Uuid, otherKey: Uuid, envs: seq<Env>, otherEnvs: seq<Env>)
    requires |envs| == MaxRetries && |otherEnvs| == MaxRetries
    requires (keyId, user.userId) !in st.db.keys
    requires AccountService.CreateAccount(st, user, keyId, user.userId, envs).result.Ok?
    requires (otherKey, user.userId) !in AccountService.CreateAccount(st, user, keyId, user.userId, envs).state.db.keys
    ensures var first := AccountService.CreateAccount(st, user, keyId, user.userId, envs);
      var second := AccountService.CreateAccount(first.state, user, otherKey, user.userId, otherEnvs);
      second.result == Err(Internal) && second.state == first.state
  {
  }

  // ------------------------------------------------------ CreateTransaction

  /** One CreateTransaction request of a client. */
  datatype Call = Call(t: Transaction, keyId: Uuid, envs: seq<Env>, invalidated: bool)

  ghost predicate WellFormed(calls: seq<Call>) {
    forall i | 0 <= i < |calls| :: |calls[i].envs| == MaxRetries
  }

  /** The reply a handler gives to one call in a given state. */
  type Handler = (State, Call) -> Reply<Transaction>

  /** CreateTransaction on behalf of `requester`. A call that does not carry
      one environment per attempt is refused and changes nothing; WellFormed
      rules such calls out. */
  function Serve(requester: Uuid): (handle: Handler) {
    (s: State, c: Call) =>
      if |c.envs| == MaxRetries then AccountService.CreateTransaction(s, c.t, c.keyId, requester, c.envs, c.invalidated)
      else Reply(Err(Internal), s, 0)
  }

  datatype Trace = Trace(state: State, results: seq<Result<Transaction>>)

  /** The state after `calls`, handled one after another, and each call's
      answer. */
  function RunAll(st: State, handle: Handler, calls: seq<Call>): (trace: Trace)
    ensures |trace.results| == |calls|
    decreases |calls|
  {
    if calls == [] then Trace(st, [])
    else
      var before := RunAll(st, handle, calls[..|calls| - 1]);
      var reply := handle(before.state, calls[|calls| - 1]);
      Trace(reply.state, before.results + [reply.result])
  }

  /** Later calls do not change the answers of earlier ones. */
  lemma {:induction false} EarlierAnswersStable(st: State, handle: Handler, calls: seq<Call>, n: nat)
    requires n <= |calls|
    ensures RunAll(st, handle, calls[..n]).results == RunAll(st, handle, calls).results[..n]
    decreases |calls|
  {
    if n == |calls| {
      assert calls[..n] == calls;
    } else {
      var m := |calls| - 1;
      var prefix := calls[..m];
      EarlierAnswersStable(st, handle, prefix, n);
      assert prefix[..n] == calls[..n];
      assert RunAll(st, handle, calls).results[..m] == RunAll(st, handle, prefix).results;
    }
  }

  /** The amounts of the calls that succeeded. */
  function AppliedSum(calls: seq<Call>, results: seq<Result<Transaction>>): int
    requires |calls| == |results|
    decreases |calls|
  {
    if calls == [] then 0
    else
      var n := |calls| - 1;
      AppliedSum(calls[..n], results[..n]) + (if results[n].Ok? then calls[n].t.amount else 0)
  }

  /** The scopes of the keys `calls` carry. */
  function KeysOf(requester: Uuid, calls: seq<Call>): set<Scope> {
    set i | 0 <= i < |calls| :: (calls[i].keyId, requester)
  }

  /** The amounts the calls carry. */
  function Amounts(calls: seq<Call>): (amounts: seq<int>)
    ensures |amounts| == |calls|
    ensures forall i | 0 <= i < |calls| :: amounts[i] == calls[i].t.amount
  {
    seq(|calls|, i requires 0 <= i < |calls| => calls[i].t.amount)
  }

  /** The transaction ids the calls' first attempts generate. */
  ghost function FreshIds(calls: seq<Call>): set<Uuid>
    requires WellFormed(calls)
  {
    set i | 0 <= i < |calls| :: calls[i].envs[0].freshId
  }

  /** Nothing stops the calls on `accountId`: no store call fails, no amount
      is zero, each generated id is unused and differs from the others', and
      every running balance fits in a BIGINT. */
  ghost predicate Unobstructed(st: State, accountId: Uuid, calls: seq<Call>)
    requires WellFormed(calls)
  {
    && (forall i | 0 <= i < |calls| :: calls[i].envs[0].faults == map[] && calls[i].t.amount != 0)
    && (forall i | 0 <= i < |calls| :: calls[i].envs[0].freshId !in st.db.transactions)
    && (forall i, j | 0 <= i < j < |calls| :: calls[i].envs[0].freshId != calls[j].envs[0].freshId)
    && accountId in st.db.accounts
    && PrefixSumsInRange(st.db.accounts[accountId].balance, Amounts(calls))
  }

  /** A call on `accountId`, owned by `requester` in a valid store, whose
      key `requester` has not used yet. */
  ghost predicate FreshCallOn(s: State, c: Call, requester: Uuid, accountId: Uuid) {
    && |c.envs| == MaxRetries && Valid(s.db) && Owns(s.db, accountId, requester)
    && c.t.accountId == accountId && (c.keyId, requester) !in s.db.keys
  }

  /** A call with a fresh key on `accountId` keeps the store valid and the
      account its owner's, moves the balance by the amount exactly when it
      succeeds, and adds no key but its own. */
  ghost predicate CreditsFreshCalls(handle: Handler, requester: Uuid, accountId: Uuid) {
    forall s: State, c: Call {:trigger FreshCallOn(s, c, requester, accountId)}
      | FreshCallOn(s, c, requester, accountId) ::
      && Valid(handle(s, c).state.db) && Owns(handle(s, c).state.db, accountId, requester)
      && handle(s, c).state.db.accounts[accountId].balance ==
         s.db.accounts[accountId].balance + (if handle(s, c).result.Ok? then c.t.amount else 0)
      && handle(s, c).state.db.keys.Keys <= s.db.keys.Keys + {(c.keyId, requester)}
  }

  /** A call with a completed key changes no table, and a success answers
      what the key records. */
  ghost predicate ReplaysCompletedKey(handle: Handler, requester: Uuid, keyId: Uuid) {
    forall s: State, c: Call | |c.envs| == MaxRetries && c.keyId == keyId && HasSettledKey(s.db, keyId, requester) ::
      && handle(s, c).state.db == s.db
      && (handle(s, c).result.Ok? ==>
            s.db.keys[(keyId, requester)].response == TransactionJson(handle(s, c).result.value))
  }

  /** A call with a fresh key that succeeds completes the key with its answer. */
  ghost predicate RecordsFreshSuccess(handle: Handler, requester: Uuid, keyId: Uuid) {
    forall s: State, c: Call |
      |c.envs| == MaxRetries && c.keyId == keyId && (keyId, requester) !in s.db.keys && handle(s, c).result.Ok? ::
      Records(handle(s, c).state.db, keyId, requester, TransactionJson(handle(s, c).result.value))
  }

  /** A call that createTransactionTx would apply succeeds and adds exactly
      its own transaction. */
  ghost predicate AppliesApplicableCalls(handle: Handler, requester: Uuid) {
    forall s: State, c: Call {:trigger Applicable(s.db, c.t, c.keyId, requester, c.envs[0])}
      | |c.envs| == MaxRetries && Applicable(s.db, c.t, c.keyId, requester, c.envs[0]) ::
      && handle(s, c).result.Ok?
      && handle(s, c).state.db.transactions.Keys == s.db.transactions.Keys + {c.envs[0].freshId}
  }

  /** CreateTransaction with a fresh key on an owned account: on success the
      balance moves by the amount and the key is added, on failure nothing
      changes. */
  lemma FreshCallStep(st: State, requester: Uuid, accountId: Uuid, call: Call)
    requires |call.envs| == MaxRetries
    requires Valid(st.db) && Owns(st.db, accountId, requester)
    requires call.t.accountId == accountId && (call.keyId, requester) !in st.db.keys
    ensures var reply := AccountService.CreateTransaction(st, call.t, call.keyId, requester, call.envs, call.invalidated);
      && Valid(reply.state.db) && Owns(reply.state.db, accountId, requester)
      && reply.state.db.accounts[accountId].balance ==
         st.db.accounts[accountId].balance + (if reply.result.Ok? then call.t.amount else 0)
      && reply.state.db.keys.Keys <= st.db.keys.Keys + {(call.keyId, requester)}
      && (reply.result.Ok? ==> Records(reply.state.db, call.keyId, requester, TransactionJson(reply.result.value)))
  {
  }

  /** CreateTransaction with a completed key: the store does not change, and
      a success answers with the stored transaction. */
  lemma SettledCallStep(st: State, requester: Uuid, call: Call)
    requires |call.envs| == MaxRetries
    requires HasSettledKey(st.db, call.keyId, requester)
    ensures var reply := AccountService.CreateTransaction(st, call.t, call.keyId, requester, call.envs, call.invalidated);
      && reply.state.db == st.db
      && (reply.result.Ok? ==> st.db.keys[(call.keyId, requester)].response == TransactionJson(reply.result.value))
  {
  }

  /** CreateTransaction with no failing store call, an owned account, a fresh
      key, a nonzero amount, an unused id and an in-range result succeeds and
      inserts one row. */
  lemma ApplicableCallStep(st: State, requester: Uuid, call: Call)
    requires |call.envs| == MaxRetries
    requires Applicable(st.db, call.t, call.keyId, requester, call.envs[0])
    ensures var reply := AccountService.CreateTransaction(st, call.t, call.keyId, requester, call.envs, call.invalidated);
      && reply.result.Ok?
      && reply.state.db.transactions.Keys == st.db.transactions.Keys + {call.envs[0].freshId}
  {
  }

  lemma ServeAppliesApplicableCalls(requester: Uuid)
    ensures AppliesApplicableCalls(Serve(requester), requester)
  {
    forall s: State, c: Call | |c.envs| == MaxRetries && Applicable(s.db, c.t, c.keyId, requester, c.envs[0])
      ensures
        var reply := Serve(requester)(s, c);
        && reply.result.Ok?
        && reply.state.db.transactions.Keys == s.db.transactions.Keys + {c.envs[0].freshId}
    {
      ApplicableCallStep(s, requester, c);
    }
  }

  lemma ServeCreditsFreshCalls(requester: Uuid, accountId: Uuid)
    ensures CreditsFreshCalls(Serve(requester), requester, accountId)
  {
    forall s: State, c: Call | FreshCallOn(s, c, requester, accountId)
      ensures
        var reply := Serve(requester)(s, c);
        && Valid(reply.state.db) && Owns(reply.state.db, accountId, requester)
        && reply.state.db.accounts[accountId].balance ==
           s.db.accounts[accountId].balance + (if reply.result.Ok? then c.t.amount else 0)
        && reply.state.db.keys.Keys <= s.db.keys.Keys + {(c.keyId, requester)}
    {
      FreshCallStep(s, requester, accountId, c);
    }
  }

  lemma ServeReplaysCompletedKey(requester: Uuid, keyId: Uuid)
    ensures ReplaysCompletedKey(Serve(requester), requester, keyId)
  {
    forall s: State, c: Call | |c.envs| == MaxRetries && c.keyId == keyId && HasSettledKey(s.db, keyId, requester)
      ensures
        var reply := Serve(requester)(s, c);
        && reply.state.db == s.db
        && (reply.result.Ok? ==> s.db.keys[(keyId, requester)].response == TransactionJson(reply.result.value))
    {
      SettledCallStep(s, requester, c);
    }
  }

  lemma ServeRecordsFreshSuccess(requester: Uuid, keyId: Uuid)
    ensures RecordsFreshSuccess(Serve(requester), requester, keyId)
  {
    forall s: State, c: Call |
      |c.envs| == MaxRetries && c.keyId == keyId && (keyId, requester) !in s.db.keys && Serve(requester)(s, c).result.Ok?
      ensures Records(Serve(requester)(s, c).state.db, keyId, requester, TransactionJson(Serve(requester)(s, c).result.value))
    {
      var reply := AccountService.CreateTransaction(s, c.t, c.keyId, requester, c.envs, c.invalidated);
      assert reply.result.Ok? ==> Records(reply.state.db, keyId, requester, TransactionJson(reply.result.value));
    }
  }

  /** Calls with pairwise distinct fresh keys on one account, under a handler
      that credits fresh calls, move its balance by exactly the sum of the
      amounts of the calls that succeeded. */
  lemma {:induction false} Additivity(st: State, handle: Handler, requester: Uuid, accountId: Uuid, calls: seq<Call>)
    requires CreditsFreshCalls(handle, requester, accountId)
    requires WellFormed(calls)
    requires Valid(st.db) && Owns(st.db, accountId, requester)
    requires forall i | 0 <= i < |calls| :: calls[i].t.accountId == accountId
    requires forall i | 0 <= i < |calls| :: (calls[i].keyId, requester) !in st.db.keys
    requires forall i, j | 0 <= i < j < |calls| :: calls[i].keyId != calls[j].keyId
    ensures var trace := RunAll(st, handle, calls);
      && Valid(trace.state.db) && Owns(trace.state.db, accountId, requester)
      && trace.state.db.accounts[accountId].balance ==
         st.db.accounts[accountId].balance + AppliedSum(calls, trace.results)
      && trace.state.db.keys.Keys <= st.db.keys.Keys + KeysOf(requester, calls)
    decreases |calls|
  {
    if calls != [] {
      var n := |calls| - 1;
      var prefix := calls[..n];
      Additivity(st, handle, requester, accountId, prefix);
      var before := RunAll(st, handle, prefix);
      var call := calls[n];
      assert (call.keyId, requester) !in before.state.db.keys;
      assert FreshCallOn(before.state, call, requester, accountId);
      var reply := handle(before.state, call);
      var trace := RunAll(st, handle, calls);
      assert trace == Trace(reply.state, before.results + [reply.result]);
      assert trace.results[..n] == before.results;
      assert AppliedSum(calls, trace.results) ==
        AppliedSum(prefix, before.results) + (if reply.result.Ok? then call.t.amount else 0);
      assert KeysOf(requester, prefix) <= KeysOf(requester, calls) by {
        forall s | s in KeysOf(requester, prefix)
          ensures s in KeysOf(requester, calls)
        {
          var i :| 0 <= i < n && s == (prefix[i].keyId, requester);
          assert prefix[i] == calls[i];
        }
      }
    }
  }

  /** The ids the calls generate are those of all but the last, and the
      last one's, which is none of the others'. */
  lemma FreshIdsSnoc(calls: seq<Call>)
    requires WellFormed(calls) && calls != []
    requires forall i, j | 0 <= i < j < |calls| :: calls[i].envs[0].freshId != calls[j].envs[0].freshId
    ensures var n := |calls| - 1;
      && WellFormed(calls[..n])
      && FreshIds(calls) == FreshIds(calls[..n]) + {calls[n].envs[0].freshId}
      && calls[n].envs[0].freshId !in FreshIds(calls[..n])
  {
    var n := |calls| - 1;
    var prefix := calls[..n];
    forall x | x in FreshIds(calls)
      ensures x in FreshIds(prefix) + {calls[n].envs[0].freshId}
    {
      var i :| 0 <= i < |calls| && x == calls[i].envs[0].freshId;
      if i < n { assert prefix[i] == calls[i]; }
    }
    forall x | x in FreshIds(prefix)
      ensures x != calls[n].envs[0].freshId
    {
      var i :| 0 <= i < n && x == prefix[i].envs[0].freshId;
      assert prefix[i] == calls[i];
    }
  }

  /** The calls but the last are unobstructed too, and the last one's
      running balance is in range. */
  lemma UnobstructedPrefix(st: State, accountId: Uuid, calls: seq<Call>)
    requires WellFormed(calls) && calls != [] && Unobstructed(st, accountId, calls)
    ensures var n := |calls| - 1;
      && WellFormed(calls[..n]) && Unobstructed(st, accountId, calls[..n])
      && Sum(Amounts(calls)) == Sum(Amounts(calls[..n])) + calls[n].t.amount
      && IsInt64(st.db.accounts[accountId].balance + Sum(Amounts(calls)))
  {
    var n := |calls| - 1;
    assert Amounts(calls[..n]) == Amounts(calls)[..n];
    PrefixSumsStep(st.db.accounts[accountId].balance, Amounts(calls));
  }

  /** What AllApply assumes: well-formed calls on an account `requester`
      owns in a valid store, with pairwise distinct keys unused in `st`, and
      nothing to stop them. */
  ghost predicate Prepared(st: State, requester: Uuid, accountId: Uuid, calls: seq<Call>) {
    && WellFormed(calls)
    && Valid(st.db) && Owns(st.db, accountId, requester)
    && (forall i | 0 <= i < |calls| :: calls[i].t.accountId == accountId)
    && (forall i | 0 <= i < |calls| :: (calls[i].keyId, requester) !in st.db.keys)
    && (forall i, j | 0 <= i < j < |calls| :: calls[i].keyId != calls[j].keyId)
    && Unobstructed(st, accountId, calls)
  }

  /** What AllApply concludes: every call succeeded, the store is valid and
      the account still `requester`'s, its balance grew by the sum of all
      the amounts, exactly the calls' own transactions were inserted, and no
      key but theirs was added. */
  ghost predicate AllApplied(st: State, requester: Uuid, accountId: Uuid, calls: seq<Call>, trace: Trace)
    requires WellFormed(calls) && accountId in st.db.accounts
  {
    && (forall i | 0 <= i < |trace.results| :: trace.results[i].Ok?)
    && Valid(trace.state.db) && Owns(trace.state.db, accountId, requester)
    && trace.state.db.accounts[accountId].balance == st.db.accounts[accountId].balance + Sum(Amounts(calls))
    && trace.state.db.transactions.Keys == st.db.transactions.Keys + FreshIds(calls)
    && trace.state.db.keys.Keys <= st.db.keys.Keys + KeysOf(requester, calls)
  }

  /** All but the last of prepared calls are prepared too. */
  lemma PreparedPrefix(st: State, requester: Uuid, accountId: Uuid, calls: seq<Call>)
    requires calls != [] && Prepared(st, requester, accountId, calls)
    ensures Prepared(st, requester, accountId, calls[..|calls| - 1])
  {
    UnobstructedPrefix(st, accountId, calls);
  }

  /** The keys of all but the last call are among the keys of all of them. */
  lemma KeysOfPrefix(requester: Uuid, calls: seq<Call>)
    requires calls != []
    ensures KeysOf(requester, calls[..|calls| - 1]) <= KeysOf(requester, calls)
  {
    var prefix := calls[..|calls| - 1];
    forall s | s in KeysOf(requester, prefix)
      ensures s in KeysOf(requester, calls)
    {
      var i :| 0 <= i < |prefix| && s == (prefix[i].keyId, requester);
      assert prefix[i] == calls[i];
    }
  }

  /** After all but the last of some prepared calls, the last one's key and
      id are both still unused, and its running balance is in range. */
  lemma LastCallFresh(st: State, before: Db, requester: Uuid, accountId: Uuid, calls: seq<Call>)
    requires calls != [] && Prepared(st, requester, accountId, calls)
    requires before.keys.Keys <= st.db.keys.Keys + KeysOf(requester, calls[..|calls| - 1])
    requires before.transactions.Keys == st.db.transactions.Keys + FreshIds(calls[..|calls| - 1])
    ensures (calls[|calls| - 1].keyId, requester) !in before.keys
    ensures calls[|calls| - 1].envs[0].freshId !in before.transactions
  {
    FreshIdsSnoc(calls);
  }

  /** The answers after one more call are the earlier ones and its own. */
  lemma RunAllSnoc(st: State, handle: Handler, calls: seq<Call>)
    requires calls != []
    ensures var before := RunAll(st, handle, calls[..|calls| - 1]);
      var reply := handle(before.state, calls[|calls| - 1]);
      RunAll(st, handle, calls) == Trace(reply.state, before.results + [reply.result])
  {
  }

  /** One more unobstructed call with a fresh key on the account, under a
      handler that credits and applies such calls: it succeeds, credits its
      amount, inserts its own transaction and adds no key but its own. */
  lemma ApplyNext(handle: Handler, requester: Uuid, accountId: Uuid, before: State, call: Call)
    requires CreditsFreshCalls(handle, requester, accountId) && AppliesApplicableCalls(handle, requester)
    requires |call.envs| == MaxRetries && call.t.accountId == accountId
    requires Valid(before.db) && Owns(before.db, accountId, requester)
    requires (call.keyId, requester) !in before.db.keys
    requires call.envs[0].faults == map[] && call.t.amount != 0
    requires call.envs[0].freshId !in before.db.transactions
    requires IsInt64(before.db.accounts[accountId].balance + call.t.amount)
    ensures var reply := handle(before, call);
      && reply.result.Ok?
      && Valid(reply.state.db) && Owns(reply.state.db, accountId, requester)
      && reply.state.db.accounts[accountId].balance == before.db.accounts[accountId].balance + call.t.amount
      && reply.state.db.transactions.Keys == before.db.transactions.Keys + {call.envs[0].freshId}
      && reply.state.db.keys.Keys <= before.db.keys.Keys + {(call.keyId, requester)}
  {
    assert FreshCallOn(before, call, requester, accountId);
    assert Applicable(before.db, call.t, call.keyId, requester, call.envs[0]);
  }

  /** The trace after one more call that succeeded, credited its amount,
      inserted its own transaction and added no key but its own, extends
      the conclusion of AllApply to that call. */
  lemma AppliedSnoc(st: State, requester: Uuid, accountId: Uuid, calls: seq<Call>, before: Trace, reply: Reply<Transaction>)
    requires calls != [] && WellFormed(calls) && WellFormed(calls[..|calls| - 1]) && accountId in st.db.accounts
    requires AllApplied(st, requester, accountId, calls[..|calls| - 1], before)
    requires var call := calls[|calls| - 1];
      && reply.result.Ok?
      && Valid(reply.state.db) && Owns(reply.state.db, accountId, requester)
      && reply.state.db.accounts[accountId].balance == before.state.db.accounts[accountId].balance + call.t.amount
      && reply.state.db.transactions.Keys == before.state.db.transactions.Keys + {call.envs[0].freshId}
      && reply.state.db.keys.Keys <= before.state.db.keys.Keys + {(call.keyId, requester)}
    requires Sum(Amounts(calls)) == Sum(Amounts(calls[..|calls| - 1])) + calls[|calls| - 1].t.amount
    requires FreshIds(calls) == FreshIds(calls[..|calls| - 1]) + {calls[|calls| - 1].envs[0].freshId}
    requires KeysOf(requester, calls[..|calls| - 1]) <= KeysOf(requester, calls)
    ensures AllApplied(st, requester, accountId, calls, Trace(reply.state, before.results + [reply.result]))
  {
    assert reply.state.db.transactions.Keys == st.db.transactions.Keys + FreshIds(calls);
    assert reply.state.db.keys.Keys <= st.db.keys.Keys + KeysOf(requester, calls);
  }

  /** The step of AllApply: if all but the last of some prepared calls
      applied, so do all of them. */
  lemma AllApplyStep(st: State, handle: Handler, requester: Uuid, accountId: Uuid, calls: seq<Call>)
    requires CreditsFreshCalls(handle, requester, accountId) && AppliesApplicableCalls(handle, requester)
    requires calls != [] && Prepared(st, requester, accountId, calls)
    requires Prepared(st, requester, accountId, calls[..|calls| - 1])
    requires AllApplied(st, requester, accountId, calls[..|calls| - 1], RunAll(st, handle, calls[..|calls| - 1]))
    ensures AllApplied(st, requester, accountId, calls, RunAll(st, handle, calls))
  {
    var n := |calls| - 1;
    var before := RunAll(st, handle, calls[..n]);
    UnobstructedPrefix(st, accountId, calls);
    FreshIdsSnoc(calls);
    KeysOfPrefix(requester, calls);
    LastCallFresh(st, before.state.db, requester, accountId, calls);
    ApplyNext(handle, requester, accountId, before.state, calls[n]);
    RunAllSnoc(st, handle, calls);
    AppliedSnoc(st, requester, accountId, calls, before, handle(before.state, calls[n]));
  }

  /** Under a handler that credits fresh calls and applies every applicable
      call: prepared calls all succeed, raise the balance by the sum of all
      their amounts, and insert exactly their own transactions. */
  lemma {:induction false} AllApply(st: State, handle: Handler, requester: Uuid, accountId: Uuid, calls: seq<Call>)
    requires CreditsFreshCalls(handle, requester, accountId) && AppliesApplicableCalls(handle, requester)
    requires Prepared(st, requester, accountId, calls)
    ensures AllApplied(st, requester, accountId, calls, RunAll(st, handle, calls))
    decreases |calls|
  {
    if calls != [] {
      PreparedPrefix(st, requester, accountId, calls);
      AllApply(st, handle, requester, accountId, calls[..|calls| - 1]);
      AllApplyStep(st, handle, requester, accountId, calls);
    }
  }

  /** CreateTransaction calls with pairwise distinct fresh keys on one
      account move its balance by exactly the sum of the amounts of the
      calls that succeeded; failed calls leave no trace. */
  lemma BalanceAdditivity(st: State, requester: Uuid, accountId: Uuid, calls: seq<Call>)
    requires WellFormed(calls)
    requires Valid(st.db) && Owns(st.db, accountId, requester)
    requires forall i | 0 <= i < |calls| :: calls[i].t.accountId == accountId
    requires forall i | 0 <= i < |calls| :: (calls[i].keyId, requester) !in st.db.keys
    requires forall i, j | 0 <= i < j < |calls| :: calls[i].keyId != calls[j].keyId
    ensures var trace := RunAll(st, Serve(requester), calls);
      && Valid(trace.state.db) && Owns(trace.state.db, accountId, requester)
      && trace.state.db.accounts[accountId].balance ==
         st.db.accounts[accountId].balance + AppliedSum(calls, trace.results)
      && trace.state.db.keys.Keys <= st.db.keys.Keys + KeysOf(requester, calls)
  {
    ServeCreditsFreshCalls(requester, accountId);
    Additivity(st, Serve(requester), requester, accountId, calls);
  }

  /** CreateTransaction calls with pairwise distinct fresh keys on one owned
      account, when nothing stops them: every call succeeds, the balance
      moves by the sum of all the amounts, and exactly their own
      transactions are inserted. */
  lemma UnobstructedCallsAllSucceed(st: State, requester: Uuid, accountId: Uuid, calls: seq<Call>)
    requires WellFormed(calls)
    requires Valid(st.db) && Owns(st.db, accountId, requester)
    requires forall i | 0 <= i < |calls| :: calls[i].t.accountId == accountId
    requires forall i | 0 <= i < |calls| :: (calls[i].keyId, requester) !in st.db.keys
    requires forall i, j | 0 <= i < j < |calls| :: calls[i].keyId != calls[j].keyId
    requires Unobstructed(st, accountId, calls)
    ensures var trace := RunAll(st, Serve(requester), calls);
      && (forall i | 0 <= i < |calls| :: trace.results[i].Ok?)
      && Owns(trace.state.db, accountId, requester)
      && trace.state.db.accounts[accountId].balance == st.db.accounts[accountId].balance + Sum(Amounts(calls))
      && trace.state.db.transactions.Keys == st.db.transactions.Keys + FreshIds(calls)
  {
    ServeCreditsFreshCalls(requester, accountId);
    ServeAppliesApplicableCalls(requester);
    assert Prepared(st, requester, accountId, calls);
    AllApply(st, Serve(requester), requester, accountId, calls);
  }

  /** Under a handler that records fresh successes and replays completed
      keys: after a first call with a fresh key answered `first`, further
      calls with the same key leave the store as the first call left it, the
      key keeps recording `first`, and every success answers `first`. */
  lemma {:induction false} SameKeyInvariant(st: State, handle: Handler, requester: Uuid, keyId: Uuid, calls: seq<Call>, first: Transaction)
    requires RecordsFreshSuccess(handle, requester, keyId) && ReplaysCompletedKey(handle, requester, keyId)
    requires WellFormed(calls) && |calls| > 0
    requires (keyId, requester) !in st.db.keys
    requires forall i | 0 <= i < |calls| :: calls[i].keyId == keyId
    requires RunAll(st, handle, calls[..1]).results[0] == Ok(first)
    ensures var trace := RunAll(st, handle, calls);
      && trace.state.db == RunAll(st, handle, calls[..1]).state.db
      && Records(trace.state.db, keyId, requester, TransactionJson(first))
      && forall i | 0 <= i < |calls| && trace.results[i].Ok? :: trace.results[i] == Ok(first)
    decreases |calls|
  {
    var n := |calls| - 1;
    if n == 0 {
      assert calls[..1] == calls;
      assert calls[..0] == [];
      assert RunAll(st, handle, calls) == Trace(handle(st, calls[0]).state, [handle(st, calls[0]).result]);
    } else {
      var prefix := calls[..n];
      assert prefix[..1] == calls[..1];
      SameKeyInvariant(st, handle, requester, keyId, prefix, first);
      var before := RunAll(st, handle, prefix);
      var reply := handle(before.state, calls[n]);
      assert HasSettledKey(before.state.db, keyId, requester);
      assert RunAll(st, handle, calls) == Trace(reply.state, before.results + [reply.result]);
    }
  }

  /** CreateTransaction calls that all carry the same key (whatever their
      bodies): once the first has succeeded, the store is exactly as that
      call left it, and every later success answers with the first call's
      transaction. */
  lemma SameKeyAppliesOnce(st: State, requester: Uuid, keyId: Uuid, calls: seq<Call>)
    requires WellFormed(calls) && |calls| > 0
    requires (keyId, requester) !in st.db.keys
    requires forall i | 0 <= i < |calls| :: calls[i].keyId == keyId
    ensures var trace := RunAll(st, Serve(requester), calls);
      trace.results[0].Ok? ==>
        && trace.state.db == RunAll(st, Serve(requester), calls[..1]).state.db
        && forall i | 0 <= i < |calls| && trace.results[i].Ok? :: trace.results[i] == trace.results[0]
  {
    var trace := RunAll(st, Serve(requester), calls);
    if trace.results[0].Ok? {
      ServeRecordsFreshSuccess(requester, keyId);
      ServeReplaysCompletedKey(requester, keyId);
      EarlierAnswersStable(st, Serve(requester), calls, 1);
      SameKeyInvariant(st, Serve(requester), requester, keyId, calls, trace.results[0].value);
    }
  }

  /** A first call that createTransactionTx would apply succeeds, moves the
      balance by its amount and inserts only its own transaction. */
  lemma FirstCallApplies(st: State, requester: Uuid, calls: seq<Call>)
    requires WellFormed(calls) && |calls| > 0
    requires Applicable(st.db, calls[0].t, calls[0].keyId, requester, calls[0].envs[0])
    ensures var first := RunAll(st, Serve(requester), calls[..1]);
      var accountId := calls[0].t.accountId;
      && first.results[0].Ok?
      && Owns(first.state.db, accountId, requester)
      && first.state.db.accounts[accountId].balance == st.db.accounts[accountId].balance + calls[0].t.amount
      && first.state.db.transactions.Keys == st.db.transactions.Keys + {calls[0].envs[0].freshId}
  {
    assert calls[..1][..0] == [];
    ApplicableCallStep(st, requester, calls[0]);
    FreshCallStep(st, requester, calls[0].t.accountId, calls[0]);
  }

  /** Same-key CreateTransaction calls whose first call createTransactionTx
      would apply: the first succeeds, the balance moves by its amount once
      and its transaction is the only one inserted, whatever the later
      calls carry, and every later success answers with that transaction. */
  lemma SameKeyAppliesExactlyOnce(st: State, requester: Uuid, keyId: Uuid, calls: seq<Call>)
    requires WellFormed(calls) && |calls| > 0
    requires forall i | 0 <= i < |calls| :: calls[i].keyId == keyId
    requires Applicable(st.db, calls[0].t, keyId, requester, calls[0].envs[0])
    ensures var trace := RunAll(st, Serve(requester), calls);
      var accountId := calls[0].t.accountId;
      && trace.results[0].Ok?
      && Owns(trace.state.db, accountId, requester)
      && trace.state.db.accounts[accountId].balance == st.db.accounts[accountId].balance + calls[0].t.amount
      && trace.state.db.transactions.Keys == st.db.transactions.Keys + {calls[0].envs[0].freshId}
      && forall i | 0 <= i < |calls| && trace.results[i].Ok? :: trace.results[i] == trace.results[0]
  {
    FirstCallApplies(st, requester, calls);
    EarlierAnswersStable(st, Serve(requester), calls, 1);
    SameKeyAppliesOnce(st, requester, keyId, calls);
  }

  /** A transaction of amount zero on a fresh key is rejected and changes
      nothing; with a completed key the stored answer is returned first. */
  lemma ZeroAmountRejectedUnlessReplayed(st: State, t: Transaction, keyId: Uuid, requester: Uuid, envs: seq<Env>, invalidated: bool)
    requires |envs| == MaxRetries && t.amount == 0
    requires Owns(st.db, t.accountId, requester)
    requires envs[0].faults == map[]
    ensures var reply := AccountService.CreateTransaction(st, t, keyId, requester, envs, invalidated);
      && ((keyId, requester) !in st.db.keys ==> reply.result == Err(Service(InvalidArgument)) && reply.state == st)
      && (HasSettledKey(st.db, keyId, requester) && st.db.keys[(keyId, requester)].response.TransactionJson? ==>
            reply.result == Ok(st.db.keys[(keyId, requester)].response.transaction))
  {
  }

  // -------------------------------------------- DeleteAccountByAccountNumber

  /** The account lookup comes before the key check, so replaying a delete
      that went through reports the account as missing rather than the
      stored "success". */
  lemma DeleteReplayReportsMissingAccount(st: State, number: int, keyId: Uuid, requester: Uuid, envs: seq<Env>, retryEnvs: seq<Env>, invalidated: bool)
    requires |envs| == MaxRetries && |retryEnvs| == MaxRetries
    requires Valid(st.db) && (keyId, requester) !in st.db.keys
    requires AccountService.DeleteAccountByAccountNumber(st, number, keyId, requester, envs, invalidated).result.Ok?
    requires !Fails(retryEnvs[0], Begin) && !Fails(retryEnvs[0], Lookup)
    ensures var first := AccountService.DeleteAccountByAccountNumber(st, number, keyId, requester, envs, invalidated);
      && HasSettledKey(first.state.db, keyId, requester)
      && AccountService.DeleteAccountByAccountNumber(first.state, number, keyId, requester, retryEnvs, invalidated).result ==
         Err(Service(InvalidArgument))
  {
  }

  // ------------------------------------------------------------------ cache

  /** With the invalidation not yet done, a read after a successful
      transaction still answers the balance from before it. */
  lemma StaleReadWithoutInvalidation(st: State, t: Transaction, keyId: Uuid, requester: Uuid, envs: seq<Env>)
    requires |envs| == MaxRetries
    requires Valid(st.db) && Owns(st.db, t.accountId, requester) && (keyId, requester) !in st.db.keys
    requires t.accountId !in st.cache
    ensures var warm := GetAccount(st, t.accountId, requester, CacheEnv(true, true), None);
      var after := AccountService.CreateTransaction(st.(cache := warm.cache), t, keyId, requester, envs, false);
      var read := GetAccount(after.state, t.accountId, requester, CacheEnv(true, true), None);
      after.result.Ok? ==>
        && read.result == warm.result
        && read.result.value.balance == after.state.db.accounts[t.accountId].balance - t.amount
        && read.result.value.balance != after.state.db.accounts[t.accountId].balance
  {
  }

  /** An entry older than its TTL is gone from the cache, which the read
      sees as an unreachable cache: even without the invalidation, the read
      goes to the store and sees the new balance. */
  lemma ExpiredEntryReadsStore(st: State, t: Transaction, keyId: Uuid, requester: Uuid, envs: seq<Env>)
    requires |envs| == MaxRetries
    requires Valid(st.db) && Owns(st.db, t.accountId, requester) && (keyId, requester) !in st.db.keys
    requires t.accountId !in st.cache
    ensures var warm := GetAccount(st, t.accountId, requester, CacheEnv(true, true), None);
      var after := AccountService.CreateTransaction(st.(cache := warm.cache), t, keyId, requester, envs, false);
      var read := GetAccount(after.state, t.accountId, requester, CacheEnv(false, true), None);
      after.result.Ok? ==>
        read.result == Ok(after.state.db.accounts[t.accountId]) &&
        read.result.value.balance == st.db.accounts[t.accountId].balance + t.amount
  {
  }

  /** Once the invalidation has run, the next read goes to the store and
      sees the new balance. */
  lemma FreshReadAfterInvalidation(st: State, t: Transaction, keyId: Uuid, requester: Uuid, envs: seq<Env>, cacheEnv: CacheEnv)
    requires |envs| == MaxRetries
    requires Valid(st.db) && Owns(st.db, t.accountId, requester) && (keyId, requester) !in st.db.keys
    ensures var after := AccountService.CreateTransaction(st, t, keyId, requester, envs, true);
      var read := GetAccount(after.state, t.accountId, requester, cacheEnv, None);
      after.result.Ok? ==>
        read.result == Ok(after.state.db.accounts[t.accountId]) &&
        read.result.value.balance == st.db.accounts[t.accountId].balance + t.amount
  {
  }

  // ----------------------------------------------------- key scope mismatch

  /** Keys are claimed per (KeyID, UserID) but completed per KeyID: when
      another user completes the same KeyID, the first user's stored answer
      is replaced by the other user's transaction, which a later replay by the
      first user then returns. */
  lemma ForeignCompletionOverwritesKey(db: Db, t: Transaction, keyId: Uuid, owner: Uuid, other: Uuid, env: Env, replay: Transaction, replayEnv: Env)
    requires owner != other
    requires HasSettledKey(db, keyId, owner) && (keyId, other) !in db.keys
    requires CreateTransactionTx(db, t, keyId, other, env).Ok?
    requires Owns(CreateTransactionTx(db, t, keyId, other, env).value.db, replay.accountId, owner)
    requires !Fails(replayEnv, Begin) && !Fails(replayEnv, Lookup) && !Fails(replayEnv, ClaimKey)
    ensures var written := CreateTransactionTx(db, t, keyId, other, env).value;
      CreateTransactionTx(written.db, replay, keyId, owner, replayEnv) == Ok(Applied(written.value, written.db))
  {
    var written := CreateTransactionTx(db, t, keyId, other, env).value;
    assert (keyId, owner) in db.keys && (keyId, owner).0 == keyId;
    assert written.db.keys[(keyId, owner)].response == TransactionJson(written.value);
    assert (keyId, owner) in written.db.keys;
    assert written.db.keys[(keyId, owner)].status == Completed;
  }
}
