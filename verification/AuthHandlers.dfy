/** The refresh and logout handlers and the token service as methods over the token store, one call at a
    time, and the proof that such a call is one of the interleavings of the protocol. */
module AuthHandlers {
  import opened LeaveTypes
  import opened RefreshTokens

  /** A refresh that no other call interrupts; getUp and setUp say whether Redis answers its two queries. */
  function RefreshAlone(s: State, token: Token, getUp: bool, setUp: bool, uuids: Uuids): (State, Outcome) {
    if getUp && token in s.blacklist then (s, Rejected(Blacklisted))
    else if token !in s.rows then (s, Rejected(UnknownToken))
    else
      var row, rest := s.rows[token], WithoutRow(s.rows, s.rows[token].id);
      if row.expiresAt < s.now then (s.(rows := rest), Rejected(Expired))
      else if row.userId !in s.users then (s, Rejected(UnknownUser))
      else
        var used := if setUp then s.blacklist + {token} else s.blacklist;
        (Issue(s.(rows := rest, blacklist := used), row.userId, uuids), Rotated(uuids.token))
  }

  function LogoutAlone(s: State, token: Token): (State, Outcome) {
    if token !in s.rows then (s, Rejected(UnknownToken))
    else (s.(rows := WithoutRow(s.rows, s.rows[token].id)), LoggedOut)
  }

  class AuthServer {
    var rows: map<Token, TokenRow>
    var blacklist: set<Token>
    var users: set<Id>
    var now: int
    ghost var issued: map<Token, TokenRow>

    ghost function Stores(): State
      reads this
    {
      State(rows, blacklist, users, now, [], issued)
    }

    method DeleteToken(id: Id) returns (found: bool)
      modifies this`rows
      ensures found == HasRow(old(rows), id)
      ensures rows == WithoutRow(old(rows), id)
    {
      found := exists t <- rows.Keys :: rows[t].id == id;
      rows := map t | t in rows && rows[t].id != id :: rows[t];
    }

    method GenerateTokens(userId: Id, uuids: Uuids) returns (token: Token)
      modifies this`rows, this`issued
      ensures Stores() == Issue(old(Stores()), userId, uuids) && token == uuids.token
    {
      token := uuids.token;
      var row := TokenRow(uuids.id, userId, now + SEVEN_DAYS);
      rows := rows[token := row];
      issued := issued[token := row];
    }

    method Refresh(token: Token, getUp: bool, setUp: bool, uuids: Uuids) returns (outcome: Outcome)
      modifies this
      ensures (Stores(), outcome) == RefreshAlone(old(Stores()), token, getUp, setUp, uuids)
    {
      if getUp && token in blacklist {
        return Rejected(Blacklisted);
      }
      if token !in rows {
        return Rejected(UnknownToken);
      }
      var row := rows[token];
      if row.expiresAt < now {
        var found := DeleteToken(row.id);
        assert found;
        return Rejected(Expired);
      }
      if row.userId !in users {
        return Rejected(UnknownUser);
      }
      var found := DeleteToken(row.id);
      assert found;
      if setUp {
        blacklist := blacklist + {token};
      }
      var newToken := GenerateTokens(row.userId, uuids);
      return Rotated(newToken);
    }

    method Logout(token: Token) returns (outcome: Outcome)
      modifies this`rows
      ensures (Stores(), outcome) == LogoutAlone(old(Stores()), token)
    {
      if token !in rows {
        return Rejected(UnknownToken);
      }
      var found := DeleteToken(rows[token].id);
      assert found;
      return LoggedOut;
    }
  }

  // ---- A call on its own is a run of the protocol ----

  /** The call arrives and takes its steps before any other call takes one; ups says for each step whether
      Redis answers it. */
  function Uninterrupted(s: State, kind: Kind, token: Token, ups: seq<bool>, uuids: Uuids): seq<Event> {
    [Arrive(kind, token)] + seq(|ups|, k requires 0 <= k < |ups| => Proceed(|s.calls|, ups[k], uuids))
  }

  function OneStep(s: State, call: Call, up: bool, uuids: Uuids): (State, Call) {
    var e := EffectOf(s, call, up, uuids);
    (s.(rows := e.rows, blacklist := e.blacklist, issued := e.issued), call.(pc := e.pc))
  }

  /** The stores and the call after the steps that ups answers. */
  function Steps(s: State, call: Call, ups: seq<bool>, uuids: Uuids): (State, Call)
    decreases |ups|
  {
    if ups == [] then (s, call)
    else
      var (t, c) := Steps(s, call, ups[..|ups| - 1], uuids);
      OneStep(t, c, ups[|ups| - 1], uuids)
  }

  lemma Append(s: State, call: Call, ups: seq<bool>, up: bool, uuids: Uuids)
    ensures var (t, c) := Steps(s, call, ups, uuids);
            Steps(s, call, ups + [up], uuids) == OneStep(t, c, up, uuids)
  {
    hide OneStep;
    assert (ups + [up])[..|ups|] == ups;
  }

  lemma {:induction false} RunSteps(s: State, kind: Kind, token: Token, ups: seq<bool>, uuids: Uuids)
    ensures var (t, c) := Steps(s, Call(kind, token, FirstPc(kind)), ups, uuids);
            t.calls == s.calls && c.token == token && c.kind == kind &&
            Run(s, Uninterrupted(s, kind, token, ups, uuids)) == t.(calls := s.calls + [c])
  {
    var n := |ups|;
    var events := Uninterrupted(s, kind, token, ups, uuids);
    if n == 0 {
      assert events == [Arrive(kind, token)] && events[..0] == [];
    } else {
      hide EffectOf, ProceedCall, FirstPc;
      RunSteps(s, kind, token, ups[..n - 1], uuids);
      assert events[..n] == Uninterrupted(s, kind, token, ups[..n - 1], uuids);
      assert events[n] == Proceed(|s.calls|, ups[n - 1], uuids);
      var (t, c) := Steps(s, Call(kind, token, FirstPc(kind)), ups[..n - 1], uuids);
      OneMore(t, c, ups[n - 1], uuids);
      hide Uninterrupted;
    }
  }

  lemma EffectIgnoresCalls(s: State, calls: seq<Call>, call: Call, up: bool, uuids: Uuids)
    ensures EffectOf(s.(calls := calls), call, up, uuids) == EffectOf(s, call, up, uuids)
  {
    hide HasRow, WithoutRow, Fresh;
    SameIssuedSameFresh(s, s.(calls := calls), uuids);
  }

  lemma OneMore(s: State, call: Call, up: bool, uuids: Uuids)
    ensures var e := EffectOf(s, call, up, uuids);
            ProceedCall(s.(calls := s.calls + [call]), |s.calls|, up, uuids) ==
            State(e.rows, e.blacklist, s.users, s.now, s.calls + [call.(pc := e.pc)], e.issued)
  {
    hide EffectOf;
    var t := s.(calls := s.calls + [call]);
    EffectIgnoresCalls(s, s.calls + [call], call, up, uuids);
    assert t.calls[|s.calls| := call.(pc := EffectOf(s, call, up, uuids).pc)] ==
           s.calls + [call.(pc := EffectOf(s, call, up, uuids).pc)];
  }

  /** The refresh handler on its own is the protocol's run in which nothing comes between its steps. */
  lemma RefreshAloneIsARun(s: State, token: Token, getUp: bool, setUp: bool, uuids: Uuids)
    requires Fresh(s, uuids)
    ensures var (t, outcome) := RefreshAlone(s, token, getUp, setUp, uuids);
            var ups := [getUp, true, true, true, setUp, true];
            Run(s, Uninterrupted(s, Refresh, token, ups, uuids)) ==
            t.(calls := s.calls + [Call(Refresh, token, Finished(outcome))])
  {
    var call := Call(Refresh, token, CheckBlacklist);
    var ups := [getUp, true, true, true, setUp, true];
    RunSteps(s, Refresh, token, ups, uuids);
    SixSteps(s, call, getUp, setUp, uuids);
    RefreshSteps(s, token, getUp, setUp, uuids);
  }

  function ThreeSteps(s: State, call: Call, up1: bool, up2: bool, uuids: Uuids): (State, Call) {
    var (s1, c1) := OneStep(s, call, up1, uuids);
    var (s2, c2) := OneStep(s1, c1, up2, uuids);
    OneStep(s2, c2, true, uuids)
  }

  lemma SixSteps(s: State, call: Call, getUp: bool, setUp: bool, uuids: Uuids)
    ensures Steps(s, call, [getUp, true, true, true, setUp, true], uuids) ==
            var (t, c) := ThreeSteps(s, call, getUp, true, uuids);
            ThreeSteps(t, c, true, setUp, uuids)
  {
    hide OneStep;
    var u1 := [] + [getUp];
    var u2, u3 := u1 + [true], u1 + [true] + [true];
    var u4, u5 := u3 + [true], u3 + [true] + [setUp];
    Append(s, call, [], getUp, uuids);
    Append(s, call, u1, true, uuids);
    Append(s, call, u2, true, uuids);
    Append(s, call, u3, true, uuids);
    Append(s, call, u4, setUp, uuids);
    Append(s, call, u5, true, uuids);
    assert u5 + [true] == [getUp, true, true, true, setUp, true];
  }

  lemma RefreshSteps(s: State, token: Token, getUp: bool, setUp: bool, uuids: Uuids)
    requires Fresh(s, uuids)
    ensures var (t, outcome) := RefreshAlone(s, token, getUp, setUp, uuids);
            var (s3, c3) := ThreeSteps(s, Call(Refresh, token, CheckBlacklist), getUp, true, uuids);
            ThreeSteps(s3, c3, true, setUp, uuids) == (t, Call(Refresh, token, Finished(outcome)))
  {
    UpToDelete(s, token, getUp, uuids);
    hide HasRow, WithoutRow, Fresh;
    if !(getUp && token in s.blacklist) && token in s.rows {
      var row := s.rows[token];
      if row.expiresAt >= s.now && row.userId in s.users {
        RowHere(s.rows, token);
        FromDelete(s, Call(Refresh, token, DeleteRow(row.id, row.userId)), setUp, uuids);
        hide ThreeSteps;
      }
    }
  }

  lemma UpToDelete(s: State, token: Token, getUp: bool, uuids: Uuids)
    ensures ThreeSteps(s, Call(Refresh, token, CheckBlacklist), getUp, true, uuids) ==
            if getUp && token in s.blacklist then (s, Call(Refresh, token, Finished(Rejected(Blacklisted))))
            else if token !in s.rows then (s, Call(Refresh, token, Finished(Rejected(UnknownToken))))
            else
              var row := s.rows[token];
              if row.expiresAt < s.now then
                (s.(rows := WithoutRow(s.rows, row.id)), Call(Refresh, token, Finished(Rejected(Expired))))
              else if row.userId !in s.users then (s, Call(Refresh, token, Finished(Rejected(UnknownUser))))
              else (s, Call(Refresh, token, DeleteRow(row.id, row.userId)))
  {
    hide HasRow, WithoutRow, Fresh, Issue;
    if token in s.rows {
      RowHere(s.rows, token);
    }
  }

  lemma FromDelete(s: State, call: Call, setUp: bool, uuids: Uuids)
    requires call.kind == Refresh && call.pc.DeleteRow? && HasRow(s.rows, call.pc.rowId) && Fresh(s, uuids)
    ensures var used := if setUp then s.blacklist + {call.token} else s.blacklist;
            var rest := s.(rows := WithoutRow(s.rows, call.pc.rowId), blacklist := used);
            ThreeSteps(s, call, true, setUp, uuids) ==
            (Issue(rest, call.pc.userId, uuids), call.(pc := Finished(Rotated(uuids.token))))
  {
    var used := if setUp then s.blacklist + {call.token} else s.blacklist;
    var rest := s.(rows := WithoutRow(s.rows, call.pc.rowId), blacklist := used);
    SameIssuedSameFresh(s, rest, uuids);
    hide HasRow, WithoutRow, Fresh;
  }

  lemma RowHere(rows: map<Token, TokenRow>, token: Token)
    requires token in rows
    ensures HasRow(rows, rows[token].id)
  {
  }

  /** Likewise the logout handler; Redis has no part in it. */
  lemma LogoutAloneIsARun(s: State, token: Token, uuids: Uuids)
    ensures var (t, outcome) := LogoutAlone(s, token);
            Run(s, Uninterrupted(s, Logout, token, [true, true], uuids)) ==
            t.(calls := s.calls + [Call(Logout, token, Finished(outcome))])
  {
    var call := Call(Logout, token, FindToken);
    RunSteps(s, Logout, token, [true, true], uuids);
    LogoutSteps(s, token, uuids);
    hide Run, OneStep, Uninterrupted, LogoutAlone;
    Append(s, call, [], true, uuids);
    Append(s, call, [] + [true], true, uuids);
    assert [] + [true] + [true] == [true, true];
  }

  lemma LogoutSteps(s: State, token: Token, uuids: Uuids)
    ensures var (t, outcome) := LogoutAlone(s, token);
            var (s1, c1) := OneStep(s, Call(Logout, token, FindToken), true, uuids);
            OneStep(s1, c1, true, uuids) == (t, Call(Logout, token, Finished(outcome)))
  {
    hide HasRow, WithoutRow, Fresh, Issue;
    if token in s.rows {
      RowHere(s.rows, token);
    }
  }
}
