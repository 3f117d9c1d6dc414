/** Refresh-token rotation and logout as an interleaved protocol over the token table and the Redis
    blacklist. A call is cut at every await: the other calls may run in between. */
module RefreshTokens {
  import opened LeaveTypes

  type Token = string

  const SEVEN_DAYS := 7 * 24 * 60 * 60 * 1000

  /** The table is keyed by its unique token column; rows are deleted by id. */
  datatype TokenRow = TokenRow(id: Id, userId: Id, expiresAt: int)

  datatype Reason = Blacklisted | UnknownToken | Expired | UnknownUser | RowGone

  datatype Outcome = Rotated(newToken: Token) | LoggedOut | Rejected(reason: Reason)

  datatype Kind = Refresh | Logout

  /** What the call does next. */
  datatype Pc =
    | CheckBlacklist
    | FindToken
    | FindUser(rowId: Id, userId: Id)
    | DeleteExpired(rowId: Id)
    | DeleteRow(rowId: Id, userId: Id)
    | SetBlacklist(userId: Id)
    | CreateRow(userId: Id)
    | Finished(outcome: Outcome)

  datatype Call = Call(kind: Kind, token: Token, pc: Pc)

  /** issued is history: every token ever put into the table, with the row it was put in with. */
  datatype State = State(
    rows: map<Token, TokenRow>, blacklist: set<Token>, users: set<Id>, now: int, calls: seq<Call>,
    issued: map<Token, TokenRow>)

  /** The uuids a step may need. */
  datatype Uuids = Uuids(id: Id, token: Token)

  datatype Event =
    | Arrive(kind: Kind, token: Token)
    | Proceed(call: nat, redisUp: bool, uuids: Uuids)
    | Evict(token: Token)
    | Login(userId: Id, uuids: Uuids)
    | PassTime(millis: nat)

  function FirstPc(kind: Kind): Pc {
    if kind == Refresh then CheckBlacklist else FindToken
  }

  /** Uuids never repeat; an event that would reuse one belongs to no run and changes nothing. */
  predicate Fresh(s: State, uuids: Uuids) {
    uuids.token !in s.issued && forall t <- s.issued :: s.issued[t].id != uuids.id
  }

  predicate HasRow(rows: map<Token, TokenRow>, id: Id) {
    exists t <- rows :: rows[t].id == id
  }

  function WithoutRow(rows: map<Token, TokenRow>, id: Id): map<Token, TokenRow> {
    map t | t in rows && rows[t].id != id :: rows[t]
  }

  /** `generateTokens` creates a row that expires in seven days. */
  function NewRow(userId: Id, uuids: Uuids, now: int): TokenRow {
    TokenRow(uuids.id, userId, now + SEVEN_DAYS)
  }

  function Issue(s: State, userId: Id, uuids: Uuids): State {
    var row := NewRow(userId, uuids, s.now);
    s.(rows := s.rows[uuids.token := row], issued := s.issued[uuids.token := row])
  }

  /** What one step of a call leaves behind: the stores, and where the call goes on. */
  datatype Effect = Effect(rows: map<Token, TokenRow>, blacklist: set<Token>, issued: map<Token, TokenRow>, pc: Pc)

  function GoOn(s: State, pc: Pc): Effect {
    Effect(s.rows, s.blacklist, s.issued, pc)
  }

  /** One step of a call, up to its next await. A Redis that is down hides its entries and swallows writes. */
  function EffectOf(s: State, call: Call, redisUp: bool, uuids: Uuids): Effect {
    match call.pc
    case CheckBlacklist =>
      GoOn(s, if redisUp && call.token in s.blacklist then Finished(Rejected(Blacklisted)) else FindToken)
    case FindToken =>
      if call.token !in s.rows then GoOn(s, Finished(Rejected(UnknownToken)))
      else
        var row := s.rows[call.token];
        GoOn(s, if call.kind == Logout then DeleteRow(row.id, row.userId)
                else if row.expiresAt < s.now then DeleteExpired(row.id)
                else FindUser(row.id, row.userId))
    case FindUser(rowId, userId) =>
      GoOn(s, if userId in s.users then DeleteRow(rowId, userId) else Finished(Rejected(UnknownUser)))
    case DeleteExpired(rowId) =>
      if HasRow(s.rows, rowId) then GoOn(s, Finished(Rejected(Expired))).(rows := WithoutRow(s.rows, rowId))
      else GoOn(s, Finished(Rejected(RowGone)))
    case DeleteRow(rowId, userId) =>
      if HasRow(s.rows, rowId) then
        var next := if call.kind == Logout then Finished(LoggedOut) else SetBlacklist(userId);
        GoOn(s, next).(rows := WithoutRow(s.rows, rowId))
      else GoOn(s, Finished(Rejected(RowGone)))
    case SetBlacklist(userId) =>
      GoOn(s, CreateRow(userId)).(blacklist := if redisUp then s.blacklist + {call.token} else s.blacklist)
    case CreateRow(userId) =>
      if Fresh(s, uuids) then
        var t := Issue(s, userId, uuids); GoOn(t, Finished(Rotated(uuids.token)))
      else GoOn(s, call.pc)
    case Finished(_) => GoOn(s, call.pc)
  }

  function ProceedCall(s: State, i: nat, redisUp: bool, uuids: Uuids): State
    requires i < |s.calls|
  {
    var effect := EffectOf(s, s.calls[i], redisUp, uuids);
    s.(rows := effect.rows, blacklist := effect.blacklist, issued := effect.issued,
       calls := s.calls[i := s.calls[i].(pc := effect.pc)])
  }

  function Next(s: State, e: Event): State {
    match e
    case Arrive(kind, token) => s.(calls := s.calls + [Call(kind, token, FirstPc(kind))])
    case Proceed(i, redisUp, uuids) => if i < |s.calls| then ProceedCall(s, i, redisUp, uuids) else s
    case Evict(token) => s.(blacklist := s.blacklist - {token})
    case Login(userId, uuids) => if Fresh(s, uuids) then Issue(s, userId, uuids) else s
    case PassTime(millis) => s.(now := s.now + millis)
  }

  function Run(s: State, events: seq<Event>): State {
    if events == [] then s else Next(Run(s, events[..|events| - 1]), events[|events| - 1])
  }

  // ---- The invariant ----

  predicate Succeeded(call: Call) {
    call.pc.Finished? && !call.pc.outcome.Rejected?
  }

  /** The call has deleted the row of its token. */
  predicate Claimed(call: Call) {
    call.pc.SetBlacklist? || call.pc.CreateRow? || Succeeded(call) || call.pc == Finished(Rejected(Expired))
  }

  /** The token had a row and has none now. */
  predicate Gone(s: State, token: Token) {
    token in s.issued && token !in s.rows
  }

  predicate SnapshotIs(s: State, call: Call) {
    call.pc.FindUser? || call.pc.DeleteExpired? || call.pc.DeleteRow? ==>
      && call.token in s.issued && s.issued[call.token].id == call.pc.rowId
      && (call.pc.DeleteExpired? || s.issued[call.token].userId == call.pc.userId)
  }

  predicate DistinctRowIds(issued: map<Token, TokenRow>) {
    forall t <- issued, u <- issued :: issued[t].id == issued[u].id ==> t == u
  }

  predicate RowsIssued(rows: map<Token, TokenRow>, issued: map<Token, TokenRow>) {
    forall t <- rows :: t in issued && issued[t] == rows[t]
  }

  predicate TableInv(s: State) {
    RowsIssued(s.rows, s.issued) && DistinctRowIds(s.issued) && forall t <- s.blacklist :: Gone(s, t)
  }

  predicate CallInv(s: State) {
    && (forall call <- s.calls :: SnapshotIs(s, call))
    && (forall call <- s.calls :: Claimed(call) ==> Gone(s, call.token))
    && (forall i, j :: 0 <= i < j < |s.calls| && Claimed(s.calls[i]) && Claimed(s.calls[j]) ==>
          s.calls[i].token != s.calls[j].token)
  }

  predicate Inv(s: State) {
    TableInv(s) && CallInv(s)
  }

  /** Deleting by a snapshot's id deletes exactly the row of the call's token, if that is still there. */
  lemma DeleteById(s: State, token: Token, id: Id)
    requires TableInv(s) && token in s.issued && s.issued[token].id == id
    ensures HasRow(s.rows, id) <==> token in s.rows
    ensures WithoutRow(s.rows, id) == s.rows - {token}
  {
    if t :| t in s.rows && s.rows[t].id == id {
      assert t == token;
    }
  }

  lemma IssueKeepsTable(s: State, userId: Id, uuids: Uuids)
    requires TableInv(s) && Fresh(s, uuids)
    ensures TableInv(Issue(s, userId, uuids))
    ensures forall t :: Gone(s, t) ==> Gone(Issue(s, userId, uuids), t)
    ensures uuids.token !in s.rows
  {
    var t := Issue(s, userId, uuids);
    assert DistinctRowIds(t.issued);
  }

  lemma TableProceed(s: State, i: nat, redisUp: bool, uuids: Uuids)
    requires Inv(s) && i < |s.calls|
    ensures var t := ProceedCall(s, i, redisUp, uuids);
            TableInv(t) && forall token :: Gone(s, token) ==> Gone(t, token)
  {
    var call := s.calls[i];
    assert SnapshotIs(s, call) && (Claimed(call) ==> Gone(s, call.token)) by { assert call in s.calls; }
    hide CallInv, DistinctRowIds, Issue, Fresh, HasRow, WithoutRow;
    match call.pc
    case DeleteExpired(rowId) => DeleteById(s, call.token, rowId);
    case DeleteRow(rowId, _) => DeleteById(s, call.token, rowId);
    case CreateRow(userId) =>
      if Fresh(s, uuids) {
        IssueKeepsTable(s, userId, uuids);
      }
    case _ =>
  }

  lemma TableStep(s: State, e: Event)
    requires Inv(s)
    ensures TableInv(Next(s, e))
    ensures forall t :: Gone(s, t) ==> Gone(Next(s, e), t)
  {
    match e
    case Proceed(i, redisUp, uuids) =>
      if i < |s.calls| {
        TableProceed(s, i, redisUp, uuids);
        hide ProceedCall;
      }
    case Login(userId, uuids) =>
      if Fresh(s, uuids) {
        IssueKeepsTable(s, userId, uuids);
      }
    case _ =>
  }

  /** A token that has lost its row never gets one again. */
  lemma GoneForGood(s: State, e: Event, token: Token)
    requires Inv(s) && Gone(s, token)
    ensures Gone(Next(s, e), token)
  {
    TableStep(s, e);
  }

  lemma CallStep(s: State, i: nat, redisUp: bool, uuids: Uuids)
    requires Inv(s) && i < |s.calls|
    ensures var t := ProceedCall(s, i, redisUp, uuids);
            && |t.calls| == |s.calls| && (forall j :: 0 <= j < |s.calls| && j != i ==> t.calls[j] == s.calls[j])
            && t.calls[i].token == s.calls[i].token && t.calls[i].kind == s.calls[i].kind
            && SnapshotIs(t, t.calls[i])
            && (Claimed(s.calls[i]) ==> Claimed(t.calls[i]))
            && (Claimed(t.calls[i]) ==> Gone(t, t.calls[i].token))
            && (Claimed(t.calls[i]) && !Claimed(s.calls[i]) ==> s.calls[i].token in s.rows)
  {
    var call := s.calls[i];
    assert SnapshotIs(s, call) && (Claimed(call) ==> Gone(s, call.token)) by { assert call in s.calls; }
    TableProceed(s, i, redisUp, uuids);
    StepClaimsRow(s, call, redisUp, uuids);
    hide Inv, EffectOf;
  }

  /** One step of a call, by what it leaves behind: its snapshot stays right, and it claims only a row that it
      removes. */
  lemma StepClaimsRow(s: State, call: Call, redisUp: bool, uuids: Uuids)
    requires TableInv(s) && SnapshotIs(s, call) && (Claimed(call) ==> Gone(s, call.token))
    ensures var e := EffectOf(s, call, redisUp, uuids);
            var t := s.(rows := e.rows, blacklist := e.blacklist, issued := e.issued);
            && SnapshotIs(t, call.(pc := e.pc))
            && (Claimed(call) ==> Claimed(call.(pc := e.pc)))
            && (Claimed(call.(pc := e.pc)) ==> Claimed(call) || (call.token in s.rows && Gone(t, call.token)))
  {
    if call.pc.DeleteExpired? || call.pc.DeleteRow? {
      DeleteById(s, call.token, call.pc.rowId);
    }
    hide TableInv, HasRow, WithoutRow, Fresh;
    match call.pc
    case CreateRow(_) =>
    case _ => hide Issue;
  }

  lemma StepKeepsInv(s: State, e: Event)
    requires Inv(s)
    ensures Inv(Next(s, e))
  {
    TableStep(s, e);
    var t := Next(s, e);
    match e
    case Arrive(kind, token) =>
      var call := Call(kind, token, FirstPc(kind));
      assert !Claimed(call) && SnapshotIs(t, call);
      assert forall c <- s.calls :: SnapshotIs(t, c);
    case Proceed(i, redisUp, uuids) =>
      if i < |s.calls| {
        CallStep(s, i, redisUp, uuids);
        IssuedGrows(s, e);
        hide ProceedCall, Next, TableInv;
        ProceedKeepsCalls(s, t, i);
      }
    case Evict(_) =>
      assert forall c <- s.calls :: SnapshotIs(t, c);
    case Login(_, _) =>
      IssuedGrows(s, e);
    case PassTime(_) =>
      assert forall c <- s.calls :: SnapshotIs(t, c);
  }

  lemma IssuedGrows(s: State, e: Event)
    ensures forall t <- s.issued :: t in Next(s, e).issued && Next(s, e).issued[t] == s.issued[t]
  {
  }

  lemma ProceedKeepsCalls(s: State, t: State, i: nat)
    requires CallInv(s) && i < |s.calls| == |t.calls|
    requires forall j :: 0 <= j < |s.calls| && j != i ==> t.calls[j] == s.calls[j]
    requires t.calls[i].token == s.calls[i].token && SnapshotIs(t, t.calls[i])
    requires Claimed(t.calls[i]) ==> Gone(t, t.calls[i].token)
    requires Claimed(t.calls[i]) && !Claimed(s.calls[i]) ==> s.calls[i].token in s.rows
    requires forall token :: Gone(s, token) ==> Gone(t, token)
    requires forall token <- s.issued :: token in t.issued && t.issued[token] == s.issued[token]
    ensures CallInv(t)
  {
    forall call | call in t.calls
      ensures SnapshotIs(t, call) && (Claimed(call) ==> Gone(t, call.token))
    {
      if call != t.calls[i] {
        assert call in s.calls;
      }
    }
    forall j, k | 0 <= j < k < |t.calls| && Claimed(t.calls[j]) && Claimed(t.calls[k])
      ensures t.calls[j].token != t.calls[k].token
    {
      assert s.calls[j] in s.calls && s.calls[k] in s.calls;
    }
  }

  lemma {:induction false} RunsKeepInv(s: State, events: seq<Event>)
    requires Inv(s)
    ensures Inv(Run(s, events))
  {
    hide Inv, Next;
    if events != [] {
      RunsKeepInv(s, events[..|events| - 1]);
      StepKeepsInv(Run(s, events[..|events| - 1]), events[|events| - 1]);
    }
  }

  // ---- Safety ----

  /** Under every interleaving, at most one call ever succeeds with a given token, refresh or logout. */
  lemma OneSuccessPerToken(s: State, events: seq<Event>, i: nat, j: nat)
    requires Inv(s)
    requires var calls := Run(s, events).calls;
             i < |calls| && j < |calls| && i != j && Succeeded(calls[i]) && Succeeded(calls[j])
    ensures Run(s, events).calls[i].token != Run(s, events).calls[j].token
  {
    RunsKeepInv(s, events);
  }

  /** No row was lost but to a call that claimed it. */
  predicate LossesClaimed(s: State) {
    forall token <- s.issued :: token in s.rows || exists call <- s.calls :: call.token == token && Claimed(call)
  }

  lemma ProceedClaims(s: State, i: nat, redisUp: bool, uuids: Uuids)
    requires Inv(s) && i < |s.calls|
    ensures var t := ProceedCall(s, i, redisUp, uuids);
            && (forall token <- t.issued :: token !in t.rows && (token !in s.issued || token in s.rows) ==>
                  token == s.calls[i].token && Claimed(t.calls[i]))
            && t.calls[i].token == s.calls[i].token && (Claimed(s.calls[i]) ==> Claimed(t.calls[i]))
  {
    assert SnapshotIs(s, s.calls[i]) by { assert s.calls[i] in s.calls; }
    EffectClaims(s, s.calls[i], redisUp, uuids);
    hide Inv, EffectOf;
  }

  /** Only the row of the call's own token is lost in a step, and then the call has claimed it. */
  lemma EffectClaims(s: State, call: Call, redisUp: bool, uuids: Uuids)
    requires TableInv(s) && SnapshotIs(s, call)
    ensures var e := EffectOf(s, call, redisUp, uuids);
            && (forall token <- e.issued :: token !in e.rows && (token !in s.issued || token in s.rows) ==>
                  token == call.token && Claimed(call.(pc := e.pc)))
            && (Claimed(call) ==> Claimed(call.(pc := e.pc)))
  {
    if call.pc.DeleteExpired? || call.pc.DeleteRow? {
      DeleteById(s, call.token, call.pc.rowId);
    }
    hide TableInv, HasRow, WithoutRow, Fresh;
    match call.pc
    case CreateRow(_) =>
    case _ => hide Issue;
  }

  lemma StepClaims(s: State, e: Event)
    requires Inv(s) && LossesClaimed(s)
    ensures LossesClaimed(Next(s, e))
  {
    var t := Next(s, e);
    match e
    case Proceed(i, redisUp, uuids) =>
      if i < |s.calls| {
        ProceedClaims(s, i, redisUp, uuids);
        hide EffectOf, Inv;
        forall token | token in t.issued && token !in t.rows
          ensures exists call <- t.calls :: call.token == token && Claimed(call)
        {
          if token in s.issued && token !in s.rows {
            var call :| call in s.calls && call.token == token && Claimed(call);
            var j :| 0 <= j < |s.calls| && s.calls[j] == call;
            assert t.calls[j] in t.calls;
          } else {
            assert t.calls[i] in t.calls;
          }
        }
      }
    case Arrive(_, _) =>
      assert forall call <- s.calls :: call in t.calls;
    case _ =>
  }

  lemma {:induction false} RunsClaim(s: State, events: seq<Event>)
    requires Inv(s) && LossesClaimed(s)
    ensures LossesClaimed(Run(s, events))
  {
    hide Inv, LossesClaimed, Next;
    if events != [] {
      RunsClaim(s, events[..|events| - 1]);
      RunsKeepInv(s, events[..|events| - 1]);
      StepClaims(Run(s, events[..|events| - 1]), events[|events| - 1]);
    }
  }

  /** A token that has lost its row has exactly one call that took it, by rotating, logging out or expiry. */
  lemma OneClaimPerLoss(s: State, events: seq<Event>, token: Token) returns (i: nat)
    requires Inv(s) && LossesClaimed(s) && Gone(Run(s, events), token)
    ensures var calls := Run(s, events).calls;
            && i < |calls| && calls[i].token == token && Claimed(calls[i])
            && forall j :: 0 <= j < |calls| && j != i && calls[j].token == token ==> !Claimed(calls[j])
  {
    RunsKeepInv(s, events);
    RunsClaim(s, events);
    var t := Run(s, events);
    var call :| call in t.calls && call.token == token && Claimed(call);
    i :| 0 <= i < |t.calls| && t.calls[i] == call;
  }

  lemma {:induction false} GoneThroughRuns(s: State, events: seq<Event>, token: Token)
    requires Inv(s) && Gone(s, token)
    ensures Gone(Run(s, events), token)
  {
    hide Inv, Next, Gone;
    if events != [] {
      GoneThroughRuns(s, events[..|events| - 1], token);
      RunsKeepInv(s, events[..|events| - 1]);
      GoneForGood(Run(s, events[..|events| - 1]), events[|events| - 1], token);
    }
  }

  /** A blacklisted token has no row, now or at any later point of any run. */
  lemma BlacklistedIsGone(s: State, events: seq<Event>, token: Token)
    requires Inv(s) && token in s.blacklist
    ensures Gone(Run(s, events), token)
  {
    GoneThroughRuns(s, events, token);
  }

  // ---- A rotated token stays with its owner ----

  /** The call works for the user that its token was issued to, and so does the token it hands out. */
  predicate ServesOwner(s: State, call: Call) {
    && (call.pc.SetBlacklist? || call.pc.CreateRow? ==>
          call.token in s.issued && s.issued[call.token].userId == call.pc.userId)
    && (call.pc.Finished? && call.pc.outcome.Rotated? ==>
          call.token in s.issued && call.pc.outcome.newToken in s.issued &&
          s.issued[call.pc.outcome.newToken].userId == s.issued[call.token].userId)
  }

  predicate OwnerInv(s: State) {
    forall call <- s.calls :: ServesOwner(s, call)
  }

  lemma ProceedServesOwner(s: State, i: nat, redisUp: bool, uuids: Uuids)
    requires i < |s.calls| && SnapshotIs(s, s.calls[i]) && ServesOwner(s, s.calls[i])
    ensures var t := ProceedCall(s, i, redisUp, uuids); ServesOwner(t, t.calls[i])
  {
    hide HasRow, WithoutRow;
    match s.calls[i].pc
    case CreateRow(_) =>
    case _ => hide Issue, Fresh;
  }

  lemma StepServesOwners(s: State, e: Event)
    requires Inv(s) && OwnerInv(s)
    ensures OwnerInv(Next(s, e))
  {
    IssuedGrows(s, e);
    var t := Next(s, e);
    match e
    case Arrive(kind, token) =>
      forall call | call in t.calls
        ensures ServesOwner(t, call)
      {
        assert call in s.calls || call == Call(kind, token, FirstPc(kind));
      }
    case Proceed(i, redisUp, uuids) =>
      if i < |s.calls| {
        assert s.calls[i] in s.calls;
        ProceedServesOwner(s, i, redisUp, uuids);
        hide EffectOf, Inv;
        forall call | call in t.calls
          ensures ServesOwner(t, call)
        {
          assert call == t.calls[i] || call in s.calls;
        }
      }
    case _ =>
      assert forall call <- s.calls :: ServesOwner(t, call);
  }

  /** Under every interleaving, a rotated token is issued to the user that the old one was issued to. */
  lemma {:induction false} RunsServeOwners(s: State, events: seq<Event>)
    requires Inv(s) && OwnerInv(s)
    ensures OwnerInv(Run(s, events))
  {
    hide Inv, OwnerInv, Next;
    if events != [] {
      RunsServeOwners(s, events[..|events| - 1]);
      RunsKeepInv(s, events[..|events| - 1]);
      StepServesOwners(Run(s, events[..|events| - 1]), events[|events| - 1]);
    }
  }

  // ---- Redis never decides anything ----

  /** The same events but for what Redis does: whether it answers, and which entries it loses. */
  predicate SameButRedis(e: Event, f: Event) {
    || e == f
    || (e.Evict? && f.Evict?)
    || (e.Proceed? && f.Proceed? && e.call == f.call && e.uuids == f.uuids)
  }

  /** One call was turned away by the blacklist; the other looks its token up in vain, or has done so. */
  predicate TurnedAway(p: Pc, q: Pc) {
    p == Finished(Rejected(Blacklisted)) && (q == FindToken || q == Finished(Rejected(UnknownToken)))
  }

  predicate SimilarCall(s: State, c: Call, d: Call) {
    && c.kind == d.kind && c.token == d.token
    && (c.pc == d.pc || ((TurnedAway(c.pc, d.pc) || TurnedAway(d.pc, c.pc)) && Gone(s, c.token)))
  }

  /** The two states agree on everything but Redis, and on every call but for how it was turned away. */
  predicate Similar(s: State, t: State) {
    && s.rows == t.rows && s.users == t.users && s.now == t.now && s.issued == t.issued
    && |s.calls| == |t.calls| && forall i :: 0 <= i < |s.calls| ==> SimilarCall(s, s.calls[i], t.calls[i])
  }

  lemma SimilarEffect(s: State, t: State, c: Call, d: Call, up: bool, up': bool, uuids: Uuids)
    requires s.rows == t.rows && s.users == t.users && s.now == t.now && s.issued == t.issued
    requires SimilarCall(s, c, d) && (c.token in s.blacklist || c.token in t.blacklist ==> Gone(s, c.token))
    ensures var a, b := EffectOf(s, c, up, uuids), EffectOf(t, d, up', uuids);
            && a.rows == b.rows && a.issued == b.issued
            && (a.pc == b.pc || ((TurnedAway(a.pc, b.pc) || TurnedAway(b.pc, a.pc)) &&
                                 Gone(s, c.token) && a.rows == s.rows && a.issued == s.issued))
  {
    SameIssuedSameFresh(s, t, uuids);
    hide Fresh, HasRow, WithoutRow;
  }

  lemma SameIssuedSameFresh(s: State, t: State, uuids: Uuids)
    requires s.issued == t.issued
    ensures Fresh(s, uuids) == Fresh(t, uuids)
  {
  }

  lemma SimilarProceed(s: State, t: State, i: nat, up: bool, up': bool, uuids: Uuids)
    requires Inv(s) && Inv(t) && Similar(s, t) && i < |s.calls|
    ensures Similar(ProceedCall(s, i, up, uuids), ProceedCall(t, i, up', uuids))
  {
    var c, d := s.calls[i], t.calls[i];
    assert SimilarCall(s, c, d);
    SimilarEffect(s, t, c, d, up, up', uuids);
    TableProceed(s, i, up, uuids);
    hide EffectOf, Inv, Gone;
    var s', t' := ProceedCall(s, i, up, uuids), ProceedCall(t, i, up', uuids);
    forall j | 0 <= j < |s.calls|
      ensures SimilarCall(s', s'.calls[j], t'.calls[j])
    {
      assert SimilarCall(s, s.calls[j], t.calls[j]);
    }
  }

  lemma SimilarStep(s: State, t: State, e: Event, f: Event)
    requires Inv(s) && Inv(t) && Similar(s, t) && SameButRedis(e, f)
    ensures Similar(Next(s, e), Next(t, f))
  {
    if e.Proceed? {
      if e.call < |s.calls| {
        SimilarProceed(s, t, e.call, e.redisUp, f.redisUp, e.uuids);
        hide ProceedCall, Inv, Similar;
      }
    } else {
      TableStep(s, e);
      hide Inv;
      var s', t' := Next(s, e), Next(t, f);
      forall j | 0 <= j < |s'.calls|
        ensures SimilarCall(s', s'.calls[j], t'.calls[j])
      {
        if j < |s.calls| {
          assert SimilarCall(s, s.calls[j], t.calls[j]);
        }
      }
    }
  }

  /** However Redis fails or forgets: the table, and which calls succeed and with what, come out the same. */
  lemma {:induction false} RedisIsIrrelevant(s: State, t: State, events: seq<Event>, events': seq<Event>)
    requires Inv(s) && Inv(t) && Similar(s, t)
    requires |events| == |events'| && forall k :: 0 <= k < |events| ==> SameButRedis(events[k], events'[k])
    ensures Similar(Run(s, events), Run(t, events'))
    ensures var calls, calls' := Run(s, events).calls, Run(t, events').calls;
            |calls| == |calls'| &&
            forall i :: 0 <= i < |calls| ==>
              (Succeeded(calls[i]) <==> Succeeded(calls'[i])) && (Succeeded(calls[i]) ==> calls[i] == calls'[i])
  {
    if events != [] {
      var init, init' := events[..|events| - 1], events'[..|events'| - 1];
      RedisIsIrrelevant(s, t, init, init');
      RunsKeepInv(s, init);
      RunsKeepInv(t, init');
      SimilarStep(Run(s, init), Run(t, init'), events[|events| - 1], events'[|events'| - 1]);
    }
    hide Inv, Next;
    var a, b := Run(s, events), Run(t, events');
    forall i | 0 <= i < |a.calls|
      ensures (Succeeded(a.calls[i]) <==> Succeeded(b.calls[i])) && (Succeeded(a.calls[i]) ==> a.calls[i] == b.calls[i])
    {
      assert SimilarCall(a, a.calls[i], b.calls[i]);
    }
  }

  // ---- Rotation never multiplies sessions ----

  /** The call holds a session: it has given up one row and has yet to create the next. */
  predicate Rotating(call: Call) {
    call.pc.SetBlacklist? || call.pc.CreateRow?
  }

  function CountRotating(calls: seq<Call>): nat {
    if calls == [] then 0
    else CountRotating(calls[..|calls| - 1]) + if Rotating(calls[|calls| - 1]) then 1 else 0
  }

  function Sessions(s: State): nat {
    |s.rows| + CountRotating(s.calls)
  }

  lemma {:induction false} CountUpdate(calls: seq<Call>, i: nat, call: Call)
    requires i < |calls|
    ensures CountRotating(calls[i := call]) ==
            CountRotating(calls) - (if Rotating(calls[i]) then 1 else 0) + (if Rotating(call) then 1 else 0)
  {
    var n := |calls| - 1;
    if i < n {
      CountUpdate(calls[..n], i, call);
      assert calls[i := call][..n] == calls[..n][i := call];
    } else {
      assert calls[i := call][..n] == calls[..n];
    }
  }

  predicate Ends(before: Call, after: Call) {
    !before.pc.Finished? && (after.pc == Finished(LoggedOut) || after.pc == Finished(Rejected(Expired)))
  }

  lemma ProceedSessions(s: State, i: nat, redisUp: bool, uuids: Uuids)
    requires Inv(s) && i < |s.calls|
    ensures var t := ProceedCall(s, i, redisUp, uuids);
            |t.calls| == |s.calls| && Sessions(t) == Sessions(s) - if Ends(s.calls[i], t.calls[i]) then 1 else 0
  {
    CountUpdate(s.calls, i, ProceedCall(s, i, redisUp, uuids).calls[i]);
    assert SnapshotIs(s, s.calls[i]) by { assert s.calls[i] in s.calls; }
    EffectRowCount(s, s.calls[i], redisUp, uuids);
    hide EffectOf, Inv;
  }

  /** The table shrinks by the row that a claim deletes, and grows by the row that ends a rotation. */
  lemma EffectRowCount(s: State, call: Call, redisUp: bool, uuids: Uuids)
    requires TableInv(s) && SnapshotIs(s, call)
    ensures var effect := EffectOf(s, call, redisUp, uuids);
            var after := call.(pc := effect.pc);
            |effect.rows| + (if Rotating(after) then 1 else 0) + (if Ends(call, after) then 1 else 0) ==
            |s.rows| + (if Rotating(call) then 1 else 0)
  {
    match call.pc
    case DeleteExpired(rowId) =>
      hide TableInv, HasRow, WithoutRow, Fresh;
      DeleteOneRow(s, call.token, rowId);
    case DeleteRow(rowId, _) =>
      hide TableInv, HasRow, WithoutRow, Fresh;
      DeleteOneRow(s, call.token, rowId);
    case CreateRow(userId) =>
      hide TableInv, HasRow, WithoutRow, Fresh;
      if Fresh(s, uuids) {
        IssueOneRow(s, userId, uuids);
      }
    case _ =>
      hide TableInv, HasRow, WithoutRow, Fresh, Issue;
  }

  lemma DeleteOneRow(s: State, token: Token, id: Id)
    requires TableInv(s) && token in s.issued && s.issued[token].id == id
    ensures |WithoutRow(s.rows, id)| == |s.rows| - if HasRow(s.rows, id) then 1 else 0
  {
    DeleteById(s, token, id);
    hide TableInv, HasRow, WithoutRow;
    RemoveOne(s.rows, token);
  }

  lemma IssueOneRow(s: State, userId: Id, uuids: Uuids)
    requires TableInv(s) && Fresh(s, uuids)
    ensures |Issue(s, userId, uuids).rows| == |s.rows| + 1
  {
    IssueKeepsTable(s, userId, uuids);
    hide TableInv, Fresh;
    AddOne(s.rows, uuids.token, NewRow(userId, uuids, s.now));
  }

  lemma RemoveOne(rows: map<Token, TokenRow>, token: Token)
    ensures token in rows ==> |rows - {token}| == |rows| - 1
  {
    if token in rows {
      assert (rows - {token}).Keys == rows.Keys - {token};
      assert |rows.Keys - {token}| == |rows.Keys| - 1;
    }
  }

  lemma AddOne(rows: map<Token, TokenRow>, token: Token, row: TokenRow)
    requires token !in rows
    ensures |rows[token := row]| == |rows| + 1
  {
    assert rows[token := row].Keys == rows.Keys + {token};
  }

  function Logins(s: State, events: seq<Event>): nat {
    if events == [] then 0
    else
      var e := events[|events| - 1];
      Logins(s, events[..|events| - 1]) + if e.Login? && Fresh(Run(s, events[..|events| - 1]), e.uuids) then 1 else 0
  }

  function Endings(s: State, events: seq<Event>): nat {
    if events == [] then 0
    else
      var before, e := Run(s, events[..|events| - 1]), events[|events| - 1];
      var after := Next(before, e);
      Endings(s, events[..|events| - 1]) +
      if e.Proceed? && e.call < |before.calls| && e.call < |after.calls| &&
          Ends(before.calls[e.call], after.calls[e.call])
      then 1 else 0
  }

  lemma SessionsStep(s: State, e: Event)
    requires Inv(s)
    ensures Sessions(Next(s, e)) ==
            Sessions(s) + (if e.Login? && Fresh(s, e.uuids) then 1 else 0) -
            (if e.Proceed? && e.call < |s.calls| && e.call < |Next(s, e).calls| &&
                Ends(s.calls[e.call], Next(s, e).calls[e.call]) then 1 else 0)
  {
    match e
    case Arrive(kind, token) =>
      var call := Call(kind, token, FirstPc(kind));
      assert (s.calls + [call])[..|s.calls|] == s.calls;
    case Proceed(i, redisUp, uuids) =>
      if i < |s.calls| {
        ProceedSessions(s, i, redisUp, uuids);
      }
    case Evict(_) =>
    case Login(userId, uuids) =>
      if Fresh(s, uuids) {
        IssueOneRow(s, userId, uuids);
      }
    case PassTime(_) =>
  }

  /** Conservation over every run: sessions, counting those in the middle of a rotation, are the logins
      less the logouts and expiries. However calls interleave, refreshing never turns one session into two. */
  lemma {:induction false} SessionsConserved(s: State, events: seq<Event>)
    requires Inv(s)
    ensures Sessions(Run(s, events)) == Sessions(s) + Logins(s, events) - Endings(s, events)
    ensures |Run(s, events).rows| <= Sessions(s) + Logins(s, events)
  {
    hide Inv, Next;
    if events != [] {
      var init, last := events[..|events| - 1], events[|events| - 1];
      SessionsConserved(s, init);
      RunsKeepInv(s, init);
      SessionsStep(Run(s, init), last);
    }
  }
}
