/** How long a refresh token lives: seven days from the instant it was put into the table, in every run. */
module TokenLifetime {
  import opened LeaveTypes
  import opened RefreshTokens
  import opened AuthHandlers

  // ---- One call ----

  /** On a table that runs keep, a refresh on its own succeeds exactly if the token's row is there, has not expired and
      belongs to a user who exists; the blacklist turns away no token that has a row. */
  lemma RefreshSucceedsExactlyIf(s: State, token: Token, getUp: bool, setUp: bool, uuids: Uuids)
    requires TableInv(s)
    ensures var outcome := RefreshAlone(s, token, getUp, setUp, uuids).1;
            && (outcome == Rotated(uuids.token) <==>
                  token in s.rows && s.now <= s.rows[token].expiresAt && s.rows[token].userId in s.users)
            && (outcome == Rejected(Expired) <==> token in s.rows && s.now > s.rows[token].expiresAt)
            && (outcome == Rejected(UnknownUser) <==>
                  token in s.rows && s.now <= s.rows[token].expiresAt && s.rows[token].userId !in s.users)
            && (outcome == Rejected(Blacklisted) <==> token in s.blacklist && getUp)
            && (outcome == Rejected(UnknownToken) <==> token !in s.rows && !(token in s.blacklist && getUp))
  {
    assert token in s.blacklist ==> Gone(s, token);
  }

  /** A successful refresh replaces the token's row by one of the same user that expires in seven days, and blacklists
      the token if Redis answers; an expired row goes, and nothing else does. */
  lemma RefreshLeaves(s: State, token: Token, getUp: bool, setUp: bool, uuids: Uuids)
    requires TableInv(s)
    ensures var (t, outcome) := RefreshAlone(s, token, getUp, setUp, uuids);
            t.rows == match outcome
                      case Rotated(newToken) =>
                        (s.rows - {token})[newToken := TokenRow(uuids.id, s.rows[token].userId, s.now + 604800000)]
                      case Rejected(Expired) => s.rows - {token}
                      case _ => s.rows
    ensures var (t, outcome) := RefreshAlone(s, token, getUp, setUp, uuids);
            t.blacklist == if outcome.Rotated? && setUp then s.blacklist + {token} else s.blacklist
  {
    if token in s.rows {
      DeleteById(s, token, s.rows[token].id);
    }
    hide WithoutRow, TableInv;
  }

  /** A logout succeeds exactly if the token has a row, and takes that row alone. */
  lemma LogoutSucceedsExactlyIf(s: State, token: Token)
    requires TableInv(s)
    ensures var (t, outcome) := LogoutAlone(s, token);
            && outcome == (if token in s.rows then LoggedOut else Rejected(UnknownToken))
            && t == s.(rows := s.rows - {token})
  {
    if token in s.rows {
      DeleteById(s, token, s.rows[token].id);
    }
    hide WithoutRow, TableInv;
  }

  // ---- Issued once, for seven days ----

  /** The event at place m of the run puts the token into the table. */
  predicate IssuedBy(s: State, events: seq<Event>, token: Token, m: nat) {
    m < |events| && token !in Run(s, events[..m]).issued && token in Run(s, events[..m + 1]).issued
  }

  lemma StepIssues(s: State, e: Event, token: Token)
    requires token !in s.issued && token in Next(s, e).issued
    ensures Next(s, e).issued[token].expiresAt == s.now + 604800000
  {
    hide Fresh, HasRow, WithoutRow;
  }

  /** A token that a run has issued was issued by one event, and expires seven days after that event. */
  lemma {:induction false} IssuedForSevenDays(s: State, events: seq<Event>, token: Token) returns (m: nat)
    requires token !in s.issued && token in Run(s, events).issued
    ensures IssuedBy(s, events, token, m)
    ensures Run(s, events).issued[token].expiresAt == Run(s, events[..m]).now + 604800000
  {
    hide Next;
    m := |events| - 1;
    var init, e := events[..m], events[m];
    assert events[..m + 1] == events;
    if token in Run(s, init).issued {
      m := IssuedForSevenDays(s, init, token);
      assert init[..m] == events[..m] && init[..m + 1] == events[..m + 1];
      IssuedGrows(Run(s, init), e);
    } else {
      StepIssues(Run(s, init), e, token);
    }
  }

  lemma {:induction false} IssuedThroughRuns(s: State, events: seq<Event>, token: Token, m: nat)
    requires m <= |events| && token in Run(s, events[..m]).issued
    ensures token in Run(s, events).issued
    ensures Run(s, events).issued[token] == Run(s, events[..m]).issued[token]
  {
    hide Next;
    if m == |events| {
      assert events[..m] == events;
    } else {
      var init := events[..|events| - 1];
      assert init[..m] == events[..m];
      IssuedThroughRuns(s, init, token, m);
      IssuedGrows(Run(s, init), events[|events| - 1]);
    }
  }

  lemma IssuedByExpires(s: State, events: seq<Event>, token: Token, m: nat)
    requires IssuedBy(s, events, token, m)
    ensures token in Run(s, events).issued
    ensures Run(s, events).issued[token].expiresAt == Run(s, events[..m]).now + 604800000
  {
    hide Next;
    assert events[..m + 1][..m] == events[..m];
    StepIssues(Run(s, events[..m]), events[m], token);
    IssuedThroughRuns(s, events, token, m + 1);
  }

  /** After any run: a token whose row is still there, and whose user exists, is rotated up to seven days after the
      event that issued it, and turned away as expired from the next millisecond on. */
  lemma RefreshedForSevenDays(s: State, events: seq<Event>, token: Token, m: nat, getUp: bool, setUp: bool,
                              uuids: Uuids)
    requires Inv(s) && IssuedBy(s, events, token, m)
    requires var t := Run(s, events); token in t.rows && t.rows[token].userId in t.users
    ensures RefreshAlone(Run(s, events), token, getUp, setUp, uuids).1 ==
            if Run(s, events).now - Run(s, events[..m]).now <= 604800000 then Rotated(uuids.token)
            else Rejected(Expired)
  {
    hide CallInv, Next;
    RunsKeepInv(s, events);
    IssuedByExpires(s, events, token, m);
    RefreshSucceedsExactlyIf(Run(s, events), token, getUp, setUp, uuids);
    hide RefreshAlone;
  }

  // ---- Every interleaving ----

  /** The event at place k of the run is the step in which the call looks its token up. */
  predicate LooksUp(s: State, events: seq<Event>, i: nat, k: nat) {
    && k < |events| && events[k].Proceed? && events[k].call == i
    && i < |Run(s, events[..k]).calls| && Run(s, events[..k]).calls[i].pc == FindToken
  }

  /** The call has found its row in time. */
  predicate InTime(pc: Pc) {
    pc.FindUser? || pc.DeleteRow? || pc.SetBlacklist? || pc.CreateRow? || (pc.Finished? && pc.outcome.Rotated?)
  }

  /** The call has found its row too late. */
  predicate TooLate(pc: Pc) {
    pc.DeleteExpired? || pc == Finished(Rejected(Expired))
  }

  /** What the call saw at place k, and the user it found since. */
  predicate Saw(s: State, events: seq<Event>, call: Call, k: nat)
    requires k < |events|
  {
    var t := Run(s, events[..k]);
    && call.token in t.rows
    && (if TooLate(call.pc) then t.rows[call.token].expiresAt < t.now
        else t.now <= t.rows[call.token].expiresAt)
    && (call.pc.FindUser? ==> t.rows[call.token].userId == call.pc.userId)
    && (InTime(call.pc) && !call.pc.FindUser? ==> t.rows[call.token].userId in t.users)
  }

  /** One step of a refresh: it looks its token up, or goes on from what it saw. */
  lemma StepSees(s: State, call: Call, redisUp: bool, uuids: Uuids)
    requires call.kind == Refresh
    ensures var pc := EffectOf(s, call, redisUp, uuids).pc;
            && (call.pc == FindToken && (InTime(pc) || TooLate(pc)) ==>
                  && call.token in s.rows
                  && if TooLate(pc) then s.rows[call.token].expiresAt < s.now
                     else s.now <= s.rows[call.token].expiresAt && pc.FindUser? &&
                          pc.userId == s.rows[call.token].userId)
            && (call.pc != FindToken && InTime(pc) ==> InTime(call.pc) && !pc.FindUser?)
            && (call.pc.FindUser? && InTime(pc) ==> call.pc.userId in s.users)
            && (call.pc != FindToken && TooLate(pc) ==> TooLate(call.pc))
  {
    hide Fresh, HasRow, WithoutRow, Issue;
  }

  lemma UsersStay(s: State, events: seq<Event>)
    ensures Run(s, events).users == s.users
  {
    hide EffectOf, Fresh, NewRow;
    if events != [] {
      UsersStay(s, events[..|events| - 1]);
    }
  }

  lemma StepOfCall(s: State, e: Event, i: nat)
    requires i < |Next(s, e).calls|
    ensures i < |s.calls| ==>
              Next(s, e).calls[i].token == s.calls[i].token && Next(s, e).calls[i].kind == s.calls[i].kind &&
              Next(s, e).calls[i].pc ==
              if e.Proceed? && e.call == i then EffectOf(s, s.calls[i], e.redisUp, e.uuids).pc else s.calls[i].pc
    ensures i >= |s.calls| ==> Next(s, e).calls[i].pc == FirstPc(Next(s, e).calls[i].kind)
  {
    hide EffectOf, Fresh, NewRow;
  }

  lemma {:induction false} LookedUp(s: State, events: seq<Event>, i: nat) returns (k: nat)
    requires s.calls == [] && i < |Run(s, events).calls|
    requires var call := Run(s, events).calls[i]; call.kind == Refresh && (InTime(call.pc) || TooLate(call.pc))
    ensures LooksUp(s, events, i, k) && Saw(s, events, Run(s, events).calls[i], k)
  {
    hide Next, EffectOf;
    k := |events| - 1;
    var init, e := events[..k], events[k];
    var before := Run(s, init);
    StepOfCall(before, e, i);
    var call := before.calls[i];
    UsersStay(s, init);
    if e.Proceed? && e.call == i {
      StepSees(before, call, e.redisUp, e.uuids);
    }
    if !(e.Proceed? && e.call == i && call.pc == FindToken) {
      k := LookedUp(s, init, i);
      assert init[..k] == events[..k];
      UsersStay(s, init[..k]);
    }
  }

  /** Under every interleaving, a call that rotates a token looked its row up within seven days of the event that issued
      it, and its user exists; a call that ends as expired looked it up later than that. */
  lemma RotatedWithinSevenDays(s: State, events: seq<Event>, i: nat) returns (m: nat, k: nat)
    requires Inv(s) && s.calls == [] && i < |Run(s, events).calls|
    requires var call := Run(s, events).calls[i];
             call.kind == Refresh && call.token !in s.issued && call.pc.Finished? &&
             (call.pc.outcome.Rotated? || call.pc.outcome == Rejected(Expired))
    ensures var call := Run(s, events).calls[i];
            && m < k && IssuedBy(s, events, call.token, m) && LooksUp(s, events, i, k)
            && call.token in Run(s, events[..k]).rows
            && (call.pc.outcome.Rotated? <==> Run(s, events[..k]).now - Run(s, events[..m]).now <= 604800000)
            && (call.pc.outcome.Rotated? ==> Run(s, events[..k]).rows[call.token].userId in s.users)
  {
    hide CallInv, Next;
    var call := Run(s, events).calls[i];
    k := LookedUp(s, events, i);
    var t := Run(s, events[..k]);
    UsersStay(s, events[..k]);
    RunsKeepInv(s, events[..k]);
    assert call.token in t.issued && t.issued[call.token] == t.rows[call.token];
    m := IssuedForSevenDays(s, events[..k], call.token);
    assert events[..k][..m] == events[..m] && events[..k][..m + 1] == events[..m + 1];
  }
}
