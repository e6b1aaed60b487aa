/**
 The mock server's accounts: selecting accounts, and redeeming reset credits idempotently.  A
 redemption names its offer by a scope that the client got earlier; the function that builds
 scopes is any function of the active account and its limits.
 */
module Accounts {
  import opened Wrappers

  const CODEX_ACCOUNTS := {"codex-personal", "codex-team"}
  const CLAUDE_ACCOUNTS := {"claude-team", "claude-personal"}
  const DAY_MS: int := 24 * 60 * 60 * 1000

  datatype Usage = Usage(availableResetCredits: nat, sessionUsedPercent: nat, updatedAt: int, nextExpiresAt: int)

  /** What the limits of an account show of its usage; no usage when no account is selected. */
  datatype Limits = Unavailable(updatedAt: int) | Available(usage: Usage)

  /** A scope, with its text as JSON. */
  datatype Scope = Scope(accountId: string, json: string)

  type ScopeBuilder = (Option<string>, Limits) -> Option<Scope>

  datatype Outcome = Reset | NoCredit

  datatype Operation = Operation(scopeKey: string, outcome: Outcome)

  /** An argument of unknown type: absent or no string or object, or one. */
  datatype Argument = Unusable | Null | Text(text: string)

  datatype Failure =
    | UnknownClaudeAccount
    | UnknownCodexAccount
    | InvalidKey
    | MissingScope
    | OtherScope
    | AlreadyRedeemed

  datatype Response = Redeemed(outcome: Outcome, scope: string) | OfferChanged(scope: string)

  /** The module's variables; `charged` records which account each redemption looked at. */
  datatype State = State(
    startedAt: int,
    activeClaude: Option<string>,
    activeCodex: Option<string>,
    usage: map<string, Usage>,
    operations: map<string, Operation>,
    owners: map<string, string>,
    charged: map<string, string>)

  function InitialUsage(now: int, offset: int): Usage {
    Usage(1, 100, now + offset, now + (5 + offset) * DAY_MS)
  }

  /** `resetMockAccountState`. */
  function Fresh(now: int): State {
    State(now, Some("claude-team"), Some("codex-personal"),
          map["codex-personal" := InitialUsage(now, 0), "codex-team" := InitialUsage(now, 1)], map[], map[], map[])
  }

  function SelectClaude(s: State, account: Argument): (State, Option<Failure>) {
    if account.Null? then (s.(activeClaude := None), None)
    else if account.Text? && account.text in CLAUDE_ACCOUNTS then (s.(activeClaude := Some(account.text)), None)
    else (s, Some(UnknownClaudeAccount))
  }

  function SelectCodex(s: State, account: Argument): (State, Option<Failure>) {
    if account.Null? then (s.(activeCodex := None), None)
    else if account.Text? && account.text in CODEX_ACCOUNTS then (s.(activeCodex := Some(account.text)), None)
    else (s, Some(UnknownCodexAccount))
  }

  function LimitsFor(s: State, account: Option<string>): Limits {
    if account.Some? && account.value in s.usage then Available(s.usage[account.value]) else Unavailable(s.startedAt)
  }

  function CurrentScope(s: State, build: ScopeBuilder): Option<Scope> {
    build(if s.activeCodex.Some? && s.activeCodex.value in CODEX_ACCOUNTS then s.activeCodex else None,
          LimitsFor(s, s.activeCodex))
  }

  predicate IsHex(c: char) {
    '0' <= c <= '9' || 'a' <= c <= 'f' || 'A' <= c <= 'F'
  }

  /** A UUID of version 1 to 8, in either case. */
  predicate IsUuid(key: string) {
    && |key| == 36
    && (forall i :: 0 <= i < 36 ==> if i in {8, 13, 18, 23} then key[i] == '-' else IsHex(key[i]))
    && '1' <= key[14] <= '8'
    && key[19] in "89abAB"
  }

  /** What redeeming `scope` does to the account it names. */
  function Spent(usage: Usage): Usage {
    Usage(0, 0, usage.updatedAt + 1, usage.nextExpiresAt)
  }

  predicate HasCredit(s: State, account: string) {
    account in s.usage && s.usage[account].availableResetCredits > 0
  }

  function OutcomeFor(s: State, account: string): Outcome {
    if HasCredit(s, account) then Reset else NoCredit
  }

  /** The redemption of an offer nobody owns, under a new key. */
  function Redeem(s: State, key: string, scope: Scope): State {
    var account := scope.accountId;
    s.(owners := s.owners[scope.json := key],
       operations := s.operations[key := Operation(scope.json, OutcomeFor(s, account))],
       charged := s.charged[key := account],
       usage := if HasCredit(s, account) then s.usage[account := Spent(s.usage[account])] else s.usage)
  }

  /** `consumeMockCodexResetCredit`. */
  function Consume(s: State, build: ScopeBuilder, key: Argument, scope: Argument): (State, Result<Response, Failure>) {
    if !key.Text? || !IsUuid(key.text) then (s, Err(InvalidKey))
    else if !scope.Text? then (s, Err(MissingScope))
    else if key.text in s.operations then
      var previous := s.operations[key.text];
      if previous.scopeKey != scope.text then (s, Err(OtherScope))
      else (s, Ok(Redeemed(previous.outcome, scope.text)))
    else
      var current := CurrentScope(s, build);
      if current.None? || current.value.json != scope.text then (s, Ok(OfferChanged(scope.text)))
      else if scope.text in s.owners && s.owners[scope.text] != key.text then (s, Err(AlreadyRedeemed))
      else
        (Redeem(s, key.text, current.value), Ok(Redeemed(OutcomeFor(s, current.value.accountId), scope.text)))
  }

  /** The redemptions that reset this account. */
  ghost function ResetsOf(s: State, account: string): set<string> {
    set key | key in s.operations && key in s.charged && s.operations[key].outcome == Reset && s.charged[key] == account
  }

  ghost predicate IsBijection(s: State) {
    && (forall key :: key in s.operations ==>
         s.operations[key].scopeKey in s.owners && s.owners[s.operations[key].scopeKey] == key)
    && (forall offer :: offer in s.owners ==>
         s.owners[offer] in s.operations && s.operations[s.owners[offer]].scopeKey == offer)
  }

  /** No credit is lost or spent twice: each account's credit is there, or one redemption has used it. */
  ghost predicate CreditsAreConserved(s: State) {
    && s.usage.Keys == CODEX_ACCOUNTS
    && s.charged.Keys == s.operations.Keys
    && forall account :: account in CODEX_ACCOUNTS ==>
         s.usage[account].availableResetCredits + |ResetsOf(s, account)| == 1
  }

  ghost predicate ActiveIsKnown(s: State) {
    && (s.activeCodex.Some? ==> s.activeCodex.value in CODEX_ACCOUNTS)
    && (s.activeClaude.Some? ==> s.activeClaude.value in CLAUDE_ACCOUNTS)
  }

  ghost predicate Valid(s: State) {
    IsBijection(s) && CreditsAreConserved(s) && ActiveIsKnown(s)
  }

  lemma FreshIsValid(now: int)
    ensures Valid(Fresh(now))
  {
    var s := Fresh(now);
    assert forall account :: ResetsOf(s, account) == {};
  }

  lemma RedeemCounts(s: State, key: string, scope: Scope, account: string)
    requires key !in s.operations && s.charged.Keys == s.operations.Keys
    ensures ResetsOf(Redeem(s, key, scope), account) ==
            ResetsOf(s, account) + if HasCredit(s, scope.accountId) && account == scope.accountId then {key} else {}
  {
  }

  lemma RedeemKeepsCredits(s: State, key: string, scope: Scope)
    requires CreditsAreConserved(s) && key !in s.operations
    ensures CreditsAreConserved(Redeem(s, key, scope))
  {
    hide ResetsOf;
    var t := Redeem(s, key, scope);
    forall account | account in CODEX_ACCOUNTS
      ensures t.usage[account].availableResetCredits + |ResetsOf(t, account)| == 1
    {
      RedeemCounts(s, key, scope, account);
      assert s.usage[account].availableResetCredits + |ResetsOf(s, account)| == 1;
      assert HasCredit(s, account) ==> ResetsOf(s, account) == {};
    }
  }

  /** A redemption under a new key finds its offer without an owner: the two maps stay inverse. */
  lemma RedeemKeepsBijection(s: State, key: string, scope: Scope)
    requires IsBijection(s) && key !in s.operations && (scope.json in s.owners ==> s.owners[scope.json] == key)
    ensures IsBijection(Redeem(s, key, scope))
  {
    assert scope.json !in s.owners;
  }

  lemma ConsumeKeepsValid(s: State, build: ScopeBuilder, key: Argument, scope: Argument)
    requires Valid(s)
    ensures Valid(Consume(s, build, key, scope).0)
  {
    hide IsUuid, Redeem;
    var t := Consume(s, build, key, scope).0;
    if t != s {
      var current := CurrentScope(s, build).value;
      assert t == Redeem(s, key.text, current);
      RedeemKeepsCredits(s, key.text, current);
      RedeemKeepsBijection(s, key.text, current);
      RedeemKeepsActive(s, key.text, current);
    }
  }

  lemma RedeemKeepsActive(s: State, key: string, scope: Scope)
    ensures ActiveIsKnown(s) ==> ActiveIsKnown(Redeem(s, key, scope))
  {
  }

  /**
   A key once recorded answers its scope with the recorded outcome, any other scope with an error, and changes nothing.
   */
  lemma ReplayChangesNothing(s: State, build: ScopeBuilder, key: string, scope: string)
    requires Valid(s) && IsUuid(key) && key in s.operations
    ensures Consume(s, build, Text(key), Text(scope)) ==
            (s, if scope == s.operations[key].scopeKey
                then Ok(Redeemed(s.operations[key].outcome, scope)) else Err(OtherScope))
  {
  }

  /** A credit is only ever redeemed under a new key, for the current offer, when no key owns that offer. */
  lemma RedeemsIff(s: State, build: ScopeBuilder, key: Argument, scope: Argument)
    requires Valid(s)
    ensures Consume(s, build, key, scope).0 != s <==>
            && key.Text? && IsUuid(key.text) && key.text !in s.operations
            && scope.Text? && scope.text !in s.owners
            && CurrentScope(s, build).Some? && CurrentScope(s, build).value.json == scope.text
  {
    hide IsUuid, CurrentScope, CreditsAreConserved;
    if scope.Text? && scope.text in s.owners && key.Text? {
      assert s.owners[scope.text] in s.operations;
    }
  }

  datatype Action =
    | ClaudeSelected(account: Argument)
    | CodexSelected(account: Argument)
    | Consumed(key: Argument, scope: Argument)

  function Step(s: State, build: ScopeBuilder, action: Action): State {
    match action
    case ClaudeSelected(account) => SelectClaude(s, account).0
    case CodexSelected(account) => SelectCodex(s, account).0
    case Consumed(key, scope) => Consume(s, build, key, scope).0
  }

  function Run(s: State, build: ScopeBuilder, actions: seq<Action>): State {
    if actions == [] then s else Step(Run(s, build, actions[..|actions| - 1]), build, actions[|actions| - 1])
  }

  lemma StepKeepsValid(s: State, build: ScopeBuilder, action: Action)
    requires Valid(s)
    ensures Valid(Step(s, build, action))
  {
    hide Valid, Consume;
    match action
    case ClaudeSelected(account) => SelectKeepsValid(s, Step(s, build, action));
    case CodexSelected(account) => SelectKeepsValid(s, Step(s, build, action));
    case Consumed(key, scope) => ConsumeKeepsValid(s, build, key, scope);
  }

  lemma OperationStays(s: State, build: ScopeBuilder, action: Action, key: string)
    requires key in s.operations
    ensures key in Step(s, build, action).operations && Step(s, build, action).operations[key] == s.operations[key]
  {
    hide IsUuid;
  }

  lemma SelectKeepsValid(s: State, t: State)
    requires Valid(s) && (ActiveIsKnown(s) ==> ActiveIsKnown(t))
    requires t.usage == s.usage && t.operations == s.operations && t.owners == s.owners && t.charged == s.charged
    ensures Valid(t)
  {
    assert forall account :: ResetsOf(t, account) == ResetsOf(s, account);
  }

  /**
   In every run from the reset state, credits and recorded resets add up to one for each account,
   and redemptions and the offers they own correspond one to one.
   */
  lemma {:induction false} RunIsValid(now: int, build: ScopeBuilder, actions: seq<Action>)
    ensures Valid(Run(Fresh(now), build, actions))
  {
    hide Valid, Step, Fresh;
    if actions == [] {
      FreshIsValid(now);
    } else {
      RunIsValid(now, build, actions[..|actions| - 1]);
      StepKeepsValid(Run(Fresh(now), build, actions[..|actions| - 1]), build, actions[|actions| - 1]);
    }
  }

  lemma {:induction false} OperationsStay(now: int, build: ScopeBuilder, actions: seq<Action>, n: nat, key: string)
    requires n <= |actions| && key in Run(Fresh(now), build, actions[..n]).operations
    ensures key in Run(Fresh(now), build, actions).operations
    ensures Run(Fresh(now), build, actions).operations[key] == Run(Fresh(now), build, actions[..n]).operations[key]
  {
    hide Step, Fresh;
    if n == |actions| {
      assert actions[..n] == actions;
    } else {
      var m := |actions| - 1;
      assert actions[..m][..n] == actions[..n];
      OperationsStay(now, build, actions[..m], n, key);
      OperationStays(Run(Fresh(now), build, actions[..m]), build, actions[m], key);
    }
  }

  /** Retrying a redemption at any later time of the run gives the answer it got, and changes nothing. */
  lemma RetryIsIdempotent(now: int, build: ScopeBuilder, actions: seq<Action>, n: nat, key: string)
    requires n <= |actions| && IsUuid(key) && key in Run(Fresh(now), build, actions[..n]).operations
    ensures var recorded := Run(Fresh(now), build, actions[..n]).operations[key];
            var t := Run(Fresh(now), build, actions);
            Consume(t, build, Text(key), Text(recorded.scopeKey)) ==
                (t, Ok(Redeemed(recorded.outcome, recorded.scopeKey)))
  {
    OperationsStay(now, build, actions, n, key);
  }

  /** The accounts as the mock server keeps them, changed in place. */
  class AccountState {
    const build: ScopeBuilder
    var startedAt: int
    var activeClaude: Option<string>
    var activeCodex: Option<string>
    var usage: map<string, Usage>
    var operations: map<string, Operation>
    var owners: map<string, string>
    ghost var charged: map<string, string>

    ghost function Contents(): State
      reads this
    {
      State(startedAt, activeClaude, activeCodex, usage, operations, owners, charged)
    }

    constructor (build: ScopeBuilder, now: int)
      ensures Contents() == Fresh(now) && this.build == build
    {
      this.build := build;
      startedAt, activeClaude, activeCodex := now, Some("claude-team"), Some("codex-personal");
      usage := map["codex-personal" := InitialUsage(now, 0), "codex-team" := InitialUsage(now, 1)];
      operations, owners, charged := map[], map[], map[];
    }

    method ResetMockAccountState(now: int)
      modifies this
      ensures Contents() == Fresh(now)
    {
      startedAt, activeClaude, activeCodex := now, Some("claude-team"), Some("codex-personal");
      usage := map["codex-personal" := InitialUsage(now, 0), "codex-team" := InitialUsage(now, 1)];
      operations, owners, charged := map[], map[], map[];
    }

    method SelectMockClaudeAccount(account: Argument) returns (failure: Option<Failure>)
      modifies this
      ensures (Contents(), failure) == SelectClaude(old(Contents()), account)
    {
      if account.Null? {
        activeClaude := None;
        return None;
      }
      if account.Unusable? || account.text !in CLAUDE_ACCOUNTS { return Some(UnknownClaudeAccount); }
      activeClaude := Some(account.text);
      failure := None;
    }

    method SelectMockCodexAccount(account: Argument) returns (failure: Option<Failure>)
      modifies this
      ensures (Contents(), failure) == SelectCodex(old(Contents()), account)
    {
      if account.Null? {
        activeCodex := None;
        return None;
      }
      if account.Unusable? || account.text !in CODEX_ACCOUNTS { return Some(UnknownCodexAccount); }
      activeCodex := Some(account.text);
      failure := None;
    }

    method GetMockCodexResetScope() returns (scope: Option<Scope>)
      ensures scope == CurrentScope(Contents(), build)
    {
      var account := if activeCodex.Some? && activeCodex.value in CODEX_ACCOUNTS then activeCodex else None;
      var known := activeCodex.Some? && activeCodex.value in usage;
      var limits := if known then Available(usage[activeCodex.value]) else Unavailable(startedAt);
      scope := build(account, limits);
    }

    method ConsumeMockCodexResetCredit(key: Argument, scope: Argument) returns (response: Result<Response, Failure>)
      requires Valid(Contents())
      modifies this
      ensures (Contents(), response) == Consume(old(Contents()), build, key, scope)
      ensures Valid(Contents())
    {
      hide Valid, IsUuid;
      ConsumeKeepsValid(Contents(), build, key, scope);
      if !key.Text? || !IsUuid(key.text) { return Err(InvalidKey); }
      if !scope.Text? { return Err(MissingScope); }
      if key.text in operations {
        var previous := operations[key.text];
        if previous.scopeKey != scope.text { return Err(OtherScope); }
        return Ok(Redeemed(previous.outcome, scope.text));
      }
      var current := GetMockCodexResetScope();
      if current.None? || current.value.json != scope.text { return Ok(OfferChanged(scope.text)); }
      if scope.text in owners && owners[scope.text] != key.text { return Err(AlreadyRedeemed); }
      owners := owners[scope.text := key.text];
      var account := current.value.accountId;
      var outcome := if account in usage && usage[account].availableResetCredits > 0 then Reset else NoCredit;
      operations := operations[key.text := Operation(scope.text, outcome)];
      charged := charged[key.text := account];
      if outcome == Reset {
        var spent := usage[account].(availableResetCredits := 0, sessionUsedPercent := 0);
        usage := usage[account := spent.(updatedAt := spent.updatedAt + 1)];
      }
      response := Ok(Redeemed(outcome, scope.text));
    }
  }
}
