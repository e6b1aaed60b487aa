/**
 What the mock accounts answer in every case, and what each call leaves of the state, with the
 source's constants written out.
 */
module AccountAnswers {
  import opened Wrappers
  import opened Accounts

  predicate IsHexText(s: string, length: nat) {
    |s| == length && forall i :: 0 <= i < length ==> '0' <= s[i] <= '9' || 'a' <= s[i] <= 'f' || 'A' <= s[i] <= 'F'
  }

  /** Five groups of 8, 4, 4, 4 and 12 hexadecimal digits, of version 1 to 8 and variant 8 to b. */
  ghost predicate IsGrouped(key: string, a: string, b: string, c: string, d: string, e: string) {
    && key == a + "-" + b + "-" + c + "-" + d + "-" + e
    && IsHexText(a, 8) && IsHexText(b, 4) && IsHexText(c, 4) && IsHexText(d, 4) && IsHexText(e, 12)
    && '1' <= c[0] <= '8'
    && (d[0] == '8' || d[0] == '9' || d[0] == 'a' || d[0] == 'b' || d[0] == 'A' || d[0] == 'B')
  }

  lemma GroupsAreUuid(key: string, a: string, b: string, c: string, d: string, e: string)
    requires IsGrouped(key, a, b, c, d, e)
    ensures IsUuid(key)
  {
    assert key[0..8] == a && key[9..13] == b && key[14..18] == c && key[19..23] == d && key[24..36] == e;
    assert key[8] == '-' && key[13] == '-' && key[18] == '-' && key[23] == '-';
    assert key[14] == c[0] && key[19] == d[0];
    forall i | 0 <= i < 36 ensures if i in {8, 13, 18, 23} then key[i] == '-' else IsHex(key[i]) {
      if i < 8 {
        assert key[i] == a[i];
      } else if 8 < i < 13 {
        assert key[i] == b[i - 9];
      } else if 13 < i < 18 {
        assert key[i] == c[i - 14];
      } else if 18 < i < 23 {
        assert key[i] == d[i - 19];
      } else if 23 < i {
        assert key[i] == e[i - 24];
      }
    }
  }

  lemma UuidIff(key: string)
    ensures IsUuid(key) <==> exists a, b, c, d, e :: IsGrouped(key, a, b, c, d, e)
  {
    if IsUuid(key) {
      var a, b, c, d, e := key[0..8], key[9..13], key[14..18], key[19..23], key[24..36];
      assert key == a + "-" + b + "-" + c + "-" + d + "-" + e;
      assert c[0] == key[14] && d[0] == key[19];
      assert IsGrouped(key, a, b, c, d, e);
    }
    forall a, b, c, d, e | IsGrouped(key, a, b, c, d, e) ensures IsUuid(key) {
      GroupsAreUuid(key, a, b, c, d, e);
    }
  }

  /** After a reset each account has one credit and all of its session used; the times are in milliseconds. */
  lemma FreshIs(now: int)
    ensures var s := Fresh(now);
            && s.startedAt == now && s.activeClaude == Some("claude-team") && s.activeCodex == Some("codex-personal")
            && s.usage == map["codex-personal" := Usage(1, 100, now, now + 432000000),
                              "codex-team" := Usage(1, 100, now + 1, now + 518400000)]
            && s.operations == map[] && s.owners == map[]
  {
  }

  /** The offer of every reachable state is built of the selected account and its usage, or of no account. */
  lemma ScopeIs(s: State, build: ScopeBuilder)
    requires Valid(s)
    ensures CurrentScope(s, build) ==
            if s.activeCodex == None then build(None, Unavailable(s.startedAt))
            else if s.activeCodex.value in s.usage
            then build(s.activeCodex, Available(s.usage[s.activeCodex.value])) else None
    ensures s.activeCodex.Some? ==> s.activeCodex.value in s.usage
  {
  }

  /** The offer named by the argument is the current one. */
  predicate IsCurrentOffer(s: State, build: ScopeBuilder, scope: string) {
    CurrentScope(s, build).Some? && CurrentScope(s, build).value.json == scope
  }

  /** The credits of the account that the current offer is for. */
  function CreditsOffered(s: State, build: ScopeBuilder): nat {
    var current := CurrentScope(s, build);
    if current.Some? && current.value.accountId in s.usage
    then s.usage[current.value.accountId].availableResetCredits else 0
  }

  /** Which answer a redemption gets, in every case. */
  lemma AnswerIff(s: State, build: ScopeBuilder, key: Argument, scope: Argument, outcome: Outcome)
    requires Valid(s)
    ensures var answer := Consume(s, build, key, scope).1;
            && (answer == Err(InvalidKey) <==> !(key.Text? && IsUuid(key.text)))
            && (answer == Err(MissingScope) <==> key.Text? && IsUuid(key.text) && !scope.Text?)
            && (key.Text? && IsUuid(key.text) && scope.Text? ==>
                  var recorded := key.text in s.operations;
                  && (answer == Err(OtherScope) <==> recorded && s.operations[key.text].scopeKey != scope.text)
                  && (answer == Ok(OfferChanged(scope.text)) <==>
                        !recorded && !IsCurrentOffer(s, build, scope.text))
                  && (answer == Err(AlreadyRedeemed) <==>
                        !recorded && IsCurrentOffer(s, build, scope.text) && scope.text in s.owners)
                  && (answer == Ok(Redeemed(outcome, scope.text)) <==>
                        if recorded then s.operations[key.text] == Operation(scope.text, outcome)
                        else IsCurrentOffer(s, build, scope.text) && scope.text !in s.owners &&
                             outcome == if CreditsOffered(s, build) > 0 then Reset else NoCredit))
  {
    hide IsUuid, CurrentScope, CreditsAreConserved;
    if key.Text? && scope.Text? && scope.text in s.owners {
      assert s.owners[scope.text] in s.operations;
    }
  }

  /**
   What a redemption changes: its key and its offer are recorded, and a credit there was is gone with
   the usage of its session; everything else stays.
   */
  lemma RedemptionEffect(s: State, build: ScopeBuilder, key: string, scope: string)
    requires Valid(s) && IsUuid(key) && key !in s.operations
    requires IsCurrentOffer(s, build, scope) && scope !in s.owners
    ensures var t := Consume(s, build, Text(key), Text(scope)).0;
            var account := CurrentScope(s, build).value.accountId;
            var had := CreditsOffered(s, build) > 0;
            && t.operations == s.operations[key := Operation(scope, if had then Reset else NoCredit)]
            && t.owners == s.owners[scope := key]
            && t.startedAt == s.startedAt && t.activeClaude == s.activeClaude && t.activeCodex == s.activeCodex
            && (!had ==> t.usage == s.usage)
            && (had ==>
                  account in s.usage &&
                  t.usage == s.usage[account := Usage(0, 0, s.usage[account].updatedAt + 1,
                                                      s.usage[account].nextExpiresAt)])
  {
    hide IsUuid, CurrentScope, CreditsAreConserved;
  }

  /** Which accounts can be selected, and that selecting changes nothing else. */
  lemma SelectionIff(s: State, account: Argument)
    ensures var (t, failure) := SelectClaude(s, account);
            && (failure == None <==> account == Null || account == Text("claude-team") ||
                                     account == Text("claude-personal"))
            && (failure != None ==> failure == Some(UnknownClaudeAccount) && t == s)
            && (failure == None ==>
                  t == s.(activeClaude := if account.Text? then Some(account.text) else None))
    ensures var (t, failure) := SelectCodex(s, account);
            && (failure == None <==> account == Null || account == Text("codex-personal") ||
                                     account == Text("codex-team"))
            && (failure != None ==> failure == Some(UnknownCodexAccount) && t == s)
            && (failure == None ==>
                  t == s.(activeCodex := if account.Text? then Some(account.text) else None))
  {
  }
}
