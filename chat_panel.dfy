/** The chat panel's session list: an ordered list of sessions, the id of the
    active one, and a counter shared by every panel that mints ids of the form
    `session-N`.  The updates the panel hands to React are pure functions of the
    previous state here; the counter, which the source keeps in a module-level
    variable, is the field of a class, and so is the panel's state. */
module ChatPanel {
  import opened Wrappers
  import Decimal

  /** A value of `crypto.randomUUID()`, carried around but never inspected. */
  type Uuid = string

  datatype Session = Session(id: string, name: string, claudeSessionId: Uuid, initialized: bool)

  /** The component state `{ sessions, activeId }`; `None` is `null`. */
  datatype SessionState = SessionState(sessions: seq<Session>, activeId: Option<string>)

  const IdPrefix: string := "session-"
  const DefaultName: string := "Claude"

  /** Template literal `session-${n}`. */
  function SessionId(n: nat): (id: string)
    ensures |id| > |IdPrefix| && id[..|IdPrefix|] == IdPrefix
    ensures Decimal.AllDigits(id[|IdPrefix|..])
  {
    IdPrefix + Decimal.Show(n)
  }

  /** `Math.min` on two integers. */
  function Min(a: int, b: int): int {
    if a <= b then a else b
  }

  /** `Math.max` on two integers. */
  function Max(a: int, b: int): int {
    if a >= b then a else b
  }

  // ---------------------------------------------------------------------------
  // Reading the number back out of an id: `s.id.match(/session-(\d+)/)`

  /** `session-` followed by a digit stands at the start of `s`. */
  predicate StartsMatch(s: string) {
    |s| > |IdPrefix| && s[..|IdPrefix|] == IdPrefix && Decimal.IsDigit(s[|IdPrefix|])
  }

  /** The number the regular expression's group reads when a match starts at
      the very first character of `s`; `\d` is an ASCII digit and `\d+` is greedy. */
  function MatchAt(s: string): (m: Option<nat>)
    ensures m.Some? <==> StartsMatch(s)
    ensures m.Some? ==> |Decimal.DigitRun(s[|IdPrefix|..])| > 0
  {
    var k := |IdPrefix|;
    if StartsMatch(s)
    then Some(Decimal.Value(Decimal.DigitRun(s[k..])))
    else None
  }

  /** The suffix `loadSessions` takes from an id: the unanchored regular
      expression matches at the leftmost position where it can, and an id it
      does not match counts as 0. */
  function IdSuffix(id: string): (r: nat)
    ensures r > 0 ==> |id| > |IdPrefix|
    decreases |id|
  {
    if id == [] then 0
    else match MatchAt(id)
      case Some(n) => n
      case None => IdSuffix(id[1..])
  }

  /** Where the regular expression first matches, the suffix is the number
      it reads there. */
  lemma {:induction false} SuffixAtLeftmostMatch(id: string, i: nat)
    requires i < |id| && MatchAt(id[i..]).Some?
    requires forall k :: 0 <= k < i ==> MatchAt(id[k..]).None?
    ensures IdSuffix(id) == MatchAt(id[i..]).value
    decreases i
  {
    assert id[0..] == id;
    if i > 0 {
      var t := id[1..];
      assert t[i - 1..] == id[i..];
      forall k | 0 <= k < i - 1 ensures MatchAt(t[k..]).None? {
        assert t[k..] == id[k + 1..];
      }
      SuffixAtLeftmostMatch(t, i - 1);
    }
  }

  /** Every id the counter mints reads back as the counter value. */
  lemma SuffixOfSessionId(n: nat)
    ensures IdSuffix(SessionId(n)) == n
  {
    var id := SessionId(n);
    var k := |IdPrefix|;
    assert id[..k] == IdPrefix;
    assert id[k..] == Decimal.Show(n);
    Decimal.DigitRunOfDigits(Decimal.Show(n));
    Decimal.ValueOfShow(n);
  }

  /** Two minted ids are equal only when they were minted from the same value. */
  lemma SessionIdInjective(m: nat, n: nat)
    requires SessionId(m) == SessionId(n)
    ensures m == n
  {
    SuffixOfSessionId(m);
    SuffixOfSessionId(n);
  }

  /** An id in which `session-` followed by a digit occurs nowhere counts as 0. */
  lemma {:induction false} SuffixWithoutMatch(id: string)
    requires forall i :: 0 <= i < |id| ==> MatchAt(id[i..]).None?
    ensures IdSuffix(id) == 0
    decreases |id|
  {
    if id != [] {
      assert id[0..] == id;
      forall i | 0 <= i < |id[1..]|
        ensures MatchAt(id[1..][i..]).None?
      {
        assert id[1..][i..] == id[i + 1..];
      }
      SuffixWithoutMatch(id[1..]);
    }
  }

  /** The largest suffix in a non-empty list: `Math.max(...sessions.map(...))`. */
  function MaxSuffix(ss: seq<Session>): (m: nat)
    requires |ss| > 0
    ensures forall i :: 0 <= i < |ss| ==> IdSuffix(ss[i].id) <= m
    ensures exists i :: 0 <= i < |ss| && IdSuffix(ss[i].id) == m
    decreases |ss|
  {
    if |ss| == 1 then IdSuffix(ss[0].id)
    else
      var rest := MaxSuffix(ss[1..]);
      if IdSuffix(ss[0].id) >= rest then IdSuffix(ss[0].id) else rest
  }

  // ---------------------------------------------------------------------------
  // Minting and restoring

  /** The record `createSession` returns when the counter held `counter` just
      before the call (the call first increments it). */
  function Minted(counter: nat, uuid: Uuid): (s: Session)
    ensures IdSuffix(s.id) == counter + 1
    ensures s.name == DefaultName && !s.initialized && s.claudeSessionId == uuid
  {
    SuffixOfSessionId(counter + 1);
    Session(SessionId(counter + 1), DefaultName, uuid, false)
  }

  /** The counter is at least the suffix of every id in the list. */
  predicate CounterAhead(ss: seq<Session>, counter: nat) {
    forall s :: s in ss ==> IdSuffix(s.id) <= counter
  }

  /** Once the counter is ahead of a list, the next minted id is in no record of it. */
  lemma MintedIsFresh(ss: seq<Session>, counter: nat, uuid: Uuid)
    requires CounterAhead(ss, counter)
    ensures forall s :: s in ss ==> s.id != Minted(counter, uuid).id
  {
  }

  /** Another panel minting an id only raises the shared counter, which keeps
      every list it was ahead of behind it. */
  lemma CounterAheadMonotone(ss: seq<Session>, c: nat, d: nat)
    requires CounterAhead(ss, c) && c <= d
    ensures CounterAhead(ss, d)
  {
  }

  datatype Loaded = Loaded(state: SessionState, counter: nat)

  /** `loadSessions`: `saved` is the parsed snapshot, `None` when nothing was
      stored, the stored text was empty or it did not parse.  A snapshot with
      sessions is returned as stored and lifts the counter to its largest
      suffix; otherwise one fresh session is minted and made active. */
  function Restore(saved: Option<SessionState>, counter: nat, uuid: Uuid): (r: Loaded)
    ensures |r.state.sessions| > 0
    ensures counter <= r.counter && CounterAhead(r.state.sessions, r.counter)
    ensures saved.Some? && |saved.value.sessions| > 0 ==>
      r.state == saved.value &&
      forall c: nat :: counter <= c && CounterAhead(saved.value.sessions, c) ==> r.counter <= c
    ensures saved.None? || |saved.value.sessions| == 0 ==>
      r.counter == counter + 1 &&
      r.state == SessionState([Minted(counter, uuid)], Some(Minted(counter, uuid).id))
  {
    if saved.Some? && |saved.value.sessions| > 0 then
      var maxNum := MaxSuffix(saved.value.sessions);
      Loaded(saved.value, Max(counter, maxNum))
    else
      var initial := Minted(counter, uuid);
      Loaded(SessionState([initial], Some(initial.id)), counter + 1)
  }

  // ---------------------------------------------------------------------------
  // The list operations the updates are built from

  /** `sessions.filter(s => s.id !== id)`. */
  function Survivors(ss: seq<Session>, id: string): (r: seq<Session>)
    ensures |r| <= |ss|
    decreases |ss|
  {
    if ss == [] then []
    else (if ss[0].id == id then [] else [ss[0]]) + Survivors(ss[1..], id)
  }

  /** The filter keeps exactly the records whose id differs. */
  lemma {:induction false} SurvivorsMembers(ss: seq<Session>, id: string)
    ensures forall s :: s in Survivors(ss, id) <==> s in ss && s.id != id
    decreases |ss|
  {
    if ss != [] {
      SurvivorsMembers(ss[1..], id);
      assert ss == [ss[0]] + ss[1..];
    }
  }

  /** Filtering a concatenation filters each part: the survivors keep their order. */
  lemma {:induction false} SurvivorsAppend(a: seq<Session>, b: seq<Session>, id: string)
    ensures Survivors(a + b, id) == Survivors(a, id) + Survivors(b, id)
    decreases |a|
  {
    if a == [] {
      assert a + b == b;
    } else {
      assert (a + b)[1..] == a[1..] + b;
      SurvivorsAppend(a[1..], b, id);
    }
  }

  /** A list with no record of the id comes through the filter whole. */
  lemma {:induction false} SurvivorsOfUnmatched(ss: seq<Session>, id: string)
    requires forall k :: 0 <= k < |ss| ==> ss[k].id != id
    ensures Survivors(ss, id) == ss
    decreases |ss|
  {
    if ss != [] {
      SurvivorsOfUnmatched(ss[1..], id);
      assert [ss[0]] + ss[1..] == ss;
    }
  }

  /** The first position at or after `from` whose record has another id, or
      the length of the list when there is none. */
  function NextOther(ss: seq<Session>, id: string, from: nat): (j: nat)
    requires from <= |ss|
    ensures from <= j <= |ss|
    ensures forall k :: from <= k < j ==> ss[k].id == id
    ensures j < |ss| ==> ss[j].id != id
    decreases |ss| - from
  {
    if from == |ss| || ss[from].id != id then from else NextOther(ss, id, from + 1)
  }

  /** What survives from position `from` on starts with the record
      `NextOther` finds, and is empty when it finds none. */
  lemma {:induction false} SurvivorsFrom(ss: seq<Session>, id: string, from: nat)
    requires from <= |ss|
    ensures var j := NextOther(ss, id, from);
      (j < |ss| ==> |Survivors(ss[from..], id)| > 0 && Survivors(ss[from..], id)[0] == ss[j]) &&
      (j == |ss| ==> Survivors(ss[from..], id) == [])
    decreases |ss| - from
  {
    if from < |ss| {
      assert ss[from..][1..] == ss[from + 1..];
      if ss[from].id == id {
        SurvivorsFrom(ss, id, from + 1);
      }
    }
  }

  /** `sessions.findIndex(s => s.id === id)`: the first position of the id,
      or -1 when no record has it. */
  function FindIndex(ss: seq<Session>, id: string): (i: int)
    ensures -1 <= i < |ss|
    ensures 0 <= i ==> ss[i].id == id && forall k :: 0 <= k < i ==> ss[k].id != id
    ensures i == -1 <==> forall k :: 0 <= k < |ss| ==> ss[k].id != id
    decreases |ss|
  {
    if ss == [] then -1
    else if ss[0].id == id then 0
    else
      var j := FindIndex(ss[1..], id);
      if j < 0 then -1 else j + 1
  }

  /** `sessions.map(s => s.id === id ? f(s) : s)`. */
  function UpdateWhere(ss: seq<Session>, id: string, f: Session -> Session): (r: seq<Session>)
    ensures |r| == |ss|
    ensures forall i :: 0 <= i < |ss| ==> r[i] == if ss[i].id == id then f(ss[i]) else ss[i]
    decreases |ss|
  {
    if ss == [] then []
    else [if ss[0].id == id then f(ss[0]) else ss[0]] + UpdateWhere(ss[1..], id, f)
  }

  // ---------------------------------------------------------------------------
  // The state updates

  /** The update of `handleNewSession`, given the session it minted. */
  function AddSession(prev: SessionState, s: Session): (r: SessionState)
    ensures |r.sessions| == |prev.sessions| + 1
    ensures r.sessions[..|prev.sessions|] == prev.sessions && r.sessions[|prev.sessions|..] == [s]
    ensures r.activeId == Some(s.id)
  {
    SessionState(prev.sessions + [s], Some(s.id))
  }

  /** Reading `newSessions[-1].id` throws a TypeError inside the updater. */
  datatype CloseError = ActiveSessionMissing

  datatype Step = Step(state: SessionState, counter: nat)

  /** The update of `handleCloseSession`, with the counter before it runs;
      the updater itself calls `createSession` when nothing survives. */
  function Close(prev: SessionState, id: string, counter: nat, uuid: Uuid): (r: Result<Step, CloseError>)
    ensures r.Ok? ==> |r.value.state.sessions| > 0
  {
    var newSessions := Survivors(prev.sessions, id);
    if prev.activeId == Some(id) && |newSessions| > 0 then
      var closedIndex := FindIndex(prev.sessions, id);
      var newActiveIndex := Min(closedIndex, |newSessions| - 1);
      if newActiveIndex < 0 then Err(ActiveSessionMissing)
      else Ok(Step(SessionState(newSessions, Some(newSessions[newActiveIndex].id)), counter))
    else if |newSessions| == 0 then
      var newSession := Minted(counter, uuid);
      Ok(Step(SessionState([newSession], Some(newSession.id)), counter + 1))
    else
      Ok(Step(prev.(sessions := newSessions), counter))
  }

  /** The update of `handleSelectSession`: any id is accepted. */
  function Select(prev: SessionState, id: string): (r: SessionState)
    ensures r.sessions == prev.sessions && r.activeId == Some(id)
  {
    prev.(activeId := Some(id))
  }

  /** The update of `handleInitialized`. */
  function MarkInitialized(prev: SessionState, id: string): (r: SessionState)
    ensures r.activeId == prev.activeId && |r.sessions| == |prev.sessions|
    ensures forall i :: 0 <= i < |prev.sessions| ==>
      r.sessions[i] == if prev.sessions[i].id == id then prev.sessions[i].(initialized := true) else prev.sessions[i]
  {
    prev.(sessions := UpdateWhere(prev.sessions, id, (s: Session) => s.(initialized := true)))
  }

  /** The update of `handleRenameSession`. */
  function Rename(prev: SessionState, id: string, name: string): (r: SessionState)
    ensures r.activeId == prev.activeId && |r.sessions| == |prev.sessions|
    ensures forall i :: 0 <= i < |prev.sessions| ==>
      r.sessions[i] == if prev.sessions[i].id == id then prev.sessions[i].(name := name) else prev.sessions[i]
  {
    prev.(sessions := UpdateWhere(prev.sessions, id, (s: Session) => s.(name := name)))
  }

  // ---------------------------------------------------------------------------
  // What a close does

  /** A close fails exactly when the active id is the one closed, no record
      carries it, and the list is not empty. */
  lemma CloseFails(prev: SessionState, id: string, counter: nat, uuid: Uuid)
    ensures Close(prev, id, counter, uuid).Err? <==>
      prev.activeId == Some(id) && |prev.sessions| > 0 &&
      forall k :: 0 <= k < |prev.sessions| ==> prev.sessions[k].id != id
  {
    if prev.activeId == Some(id) && |prev.sessions| > 0 &&
      forall k :: 0 <= k < |prev.sessions| ==> prev.sessions[k].id != id
    {
      SurvivorsOfUnmatched(prev.sessions, id);
    }
  }

  /** A close that succeeds leaves either the survivors, in their order, with
      the counter untouched, or, when nothing survives, exactly one freshly
      minted session, active. */
  lemma CloseResult(prev: SessionState, id: string, counter: nat, uuid: Uuid)
    requires Close(prev, id, counter, uuid).Ok?
    ensures var step := Close(prev, id, counter, uuid).value;
      if |Survivors(prev.sessions, id)| > 0 then
        step.state.sessions == Survivors(prev.sessions, id) && step.counter == counter
      else
        step.counter == counter + 1 &&
        step.state == SessionState([Minted(counter, uuid)], Some(Minted(counter, uuid).id))
  {
  }

  /** Closing a session that is not active keeps the active id. */
  lemma CloseKeepsActive(prev: SessionState, id: string, counter: nat, uuid: Uuid)
    requires prev.activeId != Some(id) && |Survivors(prev.sessions, id)| > 0
    ensures Close(prev, id, counter, uuid).Ok?
    ensures Close(prev, id, counter, uuid).value.state.activeId == prev.activeId
  {
  }

  /** Where the closed id first stands, the filtered list is the untouched
      prefix followed by what survives after that position. */
  lemma {:induction false} SurvivorsAround(ss: seq<Session>, id: string)
    requires 0 <= FindIndex(ss, id)
    ensures var c := FindIndex(ss, id);
      Survivors(ss, id) == ss[..c] + Survivors(ss[c + 1..], id)
  {
    var c := FindIndex(ss, id);
    var before, here, after := ss[..c], [ss[c]], ss[c + 1..];
    assert ss == before + (here + after);
    assert forall k :: 0 <= k < |before| ==> before[k].id != id;
    SurvivorsOfUnmatched(before, id);
    assert Survivors(here, id) == [] by {
      assert here[1..] == [];
    }
    SurvivorsAppend(here, after, id);
    assert Survivors(here + after, id) == Survivors(after, id);
    SurvivorsAppend(before, here + after, id);
    assert Survivors(ss, id) == Survivors(before, id) + Survivors(here + after, id);
  }

  /** After closing the record at `c`, position `c` of the filtered list
      holds the first survivor after `c`; when there is none, the survivors
      are exactly the records before `c`. */
  lemma {:induction false} FollowerOfClosed(ss: seq<Session>, id: string, c: nat)
    requires c == FindIndex(ss, id)
    ensures var j := NextOther(ss, id, c + 1);
      (j < |ss| ==> c < |Survivors(ss, id)| && Survivors(ss, id)[c] == ss[j]) &&
      (j == |ss| ==> Survivors(ss, id) == ss[..c])
  {
    SurvivorsAround(ss, id);
    SurvivorsFrom(ss, id, c + 1);
  }

  /** Closing the active session of a list that keeps other sessions makes
      active the first survivor after the closed position, or, when none
      follows it, the last survivor (all survivors then stood before it). */
  lemma CloseActiveFollows(prev: SessionState, id: string, counter: nat, uuid: Uuid)
    requires prev.activeId == Some(id) && |Survivors(prev.sessions, id)| > 0
    requires Close(prev, id, counter, uuid).Ok?
    ensures var ss := prev.sessions;
      var c := FindIndex(ss, id);
      var next := Close(prev, id, counter, uuid).value.state.activeId;
      var surv := Survivors(ss, id);
      0 <= c &&
      ((exists j :: c < j < |ss| && ss[j].id != id) ==>
        exists j :: c < j < |ss| && ss[j].id != id &&
          (forall k :: c < k < j ==> ss[k].id == id) && next == Some(ss[j].id)) &&
      ((forall j :: c < j < |ss| ==> ss[j].id == id) ==>
        surv == ss[..c] && next == Some(surv[|surv| - 1].id))
  {
    var ss := prev.sessions;
    var c := FindIndex(ss, id);
    var surv := Survivors(ss, id);
    assert 0 <= c;
    assert Close(prev, id, counter, uuid).value.state.activeId == Some(surv[Min(c, |surv| - 1)].id);
    FollowerOfClosed(ss, id, c);
    var j := NextOther(ss, id, c + 1);
    if j < |ss| {
      assert c < j < |ss| && ss[j].id != id && (forall k :: c < k < j ==> ss[k].id == id);
    }
  }

  // ---------------------------------------------------------------------------
  // The invariant the updates keep, apart from selecting an unlisted id

  predicate UniqueIds(ss: seq<Session>) {
    forall i, j :: 0 <= i < j < |ss| ==> ss[i].id != ss[j].id
  }

  predicate ActiveListed(st: SessionState) {
    st.activeId.Some? ==> exists s :: s in st.sessions && s.id == st.activeId.value
  }

  /** A non-empty list of distinct ids, an active id that names one of them,
      and a counter ahead of them.  The fallback restore gives such a state,
      and every update but selecting an unlisted id keeps it. */
  predicate Healthy(st: SessionState, counter: nat) {
    |st.sessions| > 0 && UniqueIds(st.sessions) && ActiveListed(st) && CounterAhead(st.sessions, counter)
  }

  /** Ids stay distinct through the filter. */
  lemma {:induction false} SurvivorsUnique(ss: seq<Session>, id: string)
    requires UniqueIds(ss)
    ensures UniqueIds(Survivors(ss, id))
    decreases |ss|
  {
    if ss != [] {
      SurvivorsUnique(ss[1..], id);
      SurvivorsMembers(ss[1..], id);
      var rest := Survivors(ss[1..], id);
      if ss[0].id != id {
        forall s | s in rest ensures s.id != ss[0].id {
          var k :| 0 <= k < |ss[1..]| && ss[1..][k] == s;
          assert ss[k + 1] == s;
        }
        var r := [ss[0]] + rest;
        forall i, j | 0 <= i < j < |r| ensures r[i].id != r[j].id {
          assert r[j] == rest[j - 1];
          if i > 0 { assert r[i] == rest[i - 1]; }
        }
      } else {
        assert Survivors(ss, id) == rest;
      }
    }
  }

  /** A close keeps the counter ahead of the list. */
  lemma CloseKeepsCounterAhead(prev: SessionState, id: string, counter: nat, uuid: Uuid)
    requires CounterAhead(prev.sessions, counter)
    requires Close(prev, id, counter, uuid).Ok?
    ensures CounterAhead(Close(prev, id, counter, uuid).value.state.sessions, Close(prev, id, counter, uuid).value.counter)
  {
    SurvivorsMembers(prev.sessions, id);
  }

  /** Restoring with nothing usable saved gives a healthy state. */
  lemma RestoreFallbackHealthy(saved: Option<SessionState>, counter: nat, uuid: Uuid)
    requires saved.None? || |saved.value.sessions| == 0
    ensures Healthy(Restore(saved, counter, uuid).state, Restore(saved, counter, uuid).counter)
  {
    var r := Restore(saved, counter, uuid);
    assert r.state.sessions[0] in r.state.sessions;
  }

  /** A new session keeps the state healthy: its id is fresh. */
  lemma NewSessionHealthy(st: SessionState, counter: nat, uuid: Uuid)
    requires Healthy(st, counter)
    ensures Healthy(AddSession(st, Minted(counter, uuid)), counter + 1)
  {
    var s := Minted(counter, uuid);
    var r := AddSession(st, s);
    MintedIsFresh(st.sessions, counter, uuid);
    assert r.sessions == st.sessions + [s];
    assert r.sessions[|st.sessions|] == s;
    forall i, j | 0 <= i < j < |r.sessions| ensures r.sessions[i].id != r.sessions[j].id {
      assert r.sessions[i] == st.sessions[i];
      if j < |st.sessions| {
        assert r.sessions[j] == st.sessions[j];
      } else {
        assert st.sessions[i] in st.sessions;
      }
    }
  }

  /** A close from a healthy state never fails and keeps the state healthy. */
  lemma CloseHealthy(st: SessionState, id: string, counter: nat, uuid: Uuid)
    requires Healthy(st, counter)
    ensures Close(st, id, counter, uuid).Ok?
    ensures Healthy(Close(st, id, counter, uuid).value.state, Close(st, id, counter, uuid).value.counter)
  {
    CloseFails(st, id, counter, uuid);
    if st.activeId == Some(id) {
      var s :| s in st.sessions && s.id == id;
      var k :| 0 <= k < |st.sessions| && st.sessions[k] == s;
    }
    var r := Close(st, id, counter, uuid).value;
    var surv := Survivors(st.sessions, id);
    CloseKeepsCounterAhead(st, id, counter, uuid);
    SurvivorsMembers(st.sessions, id);
    if |surv| > 0 {
      SurvivorsUnique(st.sessions, id);
      if st.activeId == Some(id) {
        var idx := Min(FindIndex(st.sessions, id), |surv| - 1);
        assert surv[idx] in surv;
      } else if st.activeId.Some? {
        var s :| s in st.sessions && s.id == st.activeId.value;
        assert s in surv;
      }
    } else {
      assert r.state.sessions[0] in r.state.sessions;
    }
  }

  /** Selecting a listed id keeps the state healthy. */
  lemma SelectHealthy(st: SessionState, id: string, counter: nat)
    requires Healthy(st, counter)
    requires exists s :: s in st.sessions && s.id == id
    ensures Healthy(Select(st, id), counter)
  {
  }

  /** Updating records in place keeps the ids, position by position. */
  lemma UpdateKeepsIds(st: SessionState, r: SessionState, counter: nat)
    requires Healthy(st, counter)
    requires r.activeId == st.activeId && |r.sessions| == |st.sessions|
    requires forall i :: 0 <= i < |st.sessions| ==> r.sessions[i].id == st.sessions[i].id
    ensures Healthy(r, counter)
  {
    forall s | s in r.sessions ensures IdSuffix(s.id) <= counter {
      var i :| 0 <= i < |r.sessions| && r.sessions[i] == s;
      assert st.sessions[i] in st.sessions;
    }
    if st.activeId.Some? {
      var s :| s in st.sessions && s.id == st.activeId.value;
      var i :| 0 <= i < |st.sessions| && st.sessions[i] == s;
      assert r.sessions[i] in r.sessions;
    }
  }

  /** Renaming keeps the state healthy. */
  lemma RenameHealthy(st: SessionState, id: string, name: string, counter: nat)
    requires Healthy(st, counter)
    ensures Healthy(Rename(st, id, name), counter)
  {
    UpdateKeepsIds(st, Rename(st, id, name), counter);
  }

  /** Marking a session initialised keeps the state healthy. */
  lemma MarkInitializedHealthy(st: SessionState, id: string, counter: nat)
    requires Healthy(st, counter)
    ensures Healthy(MarkInitialized(st, id), counter)
  {
    UpdateKeepsIds(st, MarkInitialized(st, id), counter);
  }

  // ---------------------------------------------------------------------------
  // The mutable parts

  /** The module-level `sessionCounter`, shared by every chat panel. */
  class SessionCounter {
    var value: nat

    constructor ()
      ensures value == 0
    {
      value := 0;
    }

    /** `createSession`. */
    method CreateSession(uuid: Uuid) returns (s: Session)
      modifies this
      ensures value == old(value) + 1
      ensures s == Minted(old(value), uuid)
    {
      value := value + 1;
      s := Session(SessionId(value), DefaultName, uuid, false);
    }

    /** `loadSessions`, on the already parsed snapshot. */
    method LoadSessions(saved: Option<SessionState>, uuid: Uuid) returns (loaded: SessionState)
      modifies this
      ensures Restore(saved, old(value), uuid) == Loaded(loaded, value)
    {
      if saved.Some? && |saved.value.sessions| > 0 {
        var maxNum := MaxSuffix(saved.value.sessions);
        value := Max(value, maxNum);
        loaded := saved.value;
        return;
      }
      var initial := CreateSession(uuid);
      loaded := SessionState([initial], Some(initial.id));
    }
  }

  /** One mounted chat panel: its React state and the counter it shares. */
  class SessionPanel {
    const counter: SessionCounter
    var state: SessionState

    /** The list is never empty and the counter stays ahead of its ids. */
    ghost predicate Valid()
      reads this, counter
    {
      |state.sessions| > 0 && CounterAhead(state.sessions, counter.value)
    }

    /** The lazy initial state: `loadSessions(cwd)`. */
    constructor (counter: SessionCounter, saved: Option<SessionState>, uuid: Uuid)
      modifies counter
      ensures this.counter == counter
      ensures Restore(saved, old(counter.value), uuid) == Loaded(state, counter.value)
      ensures Valid()
    {
      var loaded := counter.LoadSessions(saved, uuid);
      this.counter := counter;
      state := loaded;
    }

    /** `handleNewSession`: the minted session is appended and made active,
        and its id is that of no earlier session. */
    method HandleNewSession(uuid: Uuid)
      requires Valid()
      modifies this, counter
      ensures Valid()
      ensures counter.value == old(counter.value) + 1
      ensures state == AddSession(old(state), Minted(old(counter.value), uuid))
      ensures forall s :: s in old(state.sessions) ==> s.id != Minted(old(counter.value), uuid).id
    {
      MintedIsFresh(state.sessions, counter.value, uuid);
      var newSession := counter.CreateSession(uuid);
      state := SessionState(state.sessions + [newSession], Some(newSession.id));
    }

    /** `handleCloseSession`: on the error the updater throws and the state
        stays as it was. */
    method HandleCloseSession(id: string, uuid: Uuid) returns (outcome: Result<(), CloseError>)
      requires Valid()
      modifies this, counter
      ensures Valid()
      ensures match Close(old(state), id, old(counter.value), uuid)
        case Ok(step) => outcome.Ok? && state == step.state && counter.value == step.counter
        case Err(e) => outcome == Err(e) && state == old(state) && counter.value == old(counter.value)
    {
      if Close(state, id, counter.value, uuid).Ok? {
        CloseKeepsCounterAhead(state, id, counter.value, uuid);
      }
      var newSessions := Survivors(state.sessions, id);
      if state.activeId == Some(id) && |newSessions| > 0 {
        var closedIndex := FindIndex(state.sessions, id);
        var newActiveIndex := Min(closedIndex, |newSessions| - 1);
        if newActiveIndex < 0 {
          return Err(ActiveSessionMissing);
        }
        state := SessionState(newSessions, Some(newSessions[newActiveIndex].id));
      } else if |newSessions| == 0 {
        var newSession := counter.CreateSession(uuid);
        state := SessionState([newSession], Some(newSession.id));
      } else {
        state := state.(sessions := newSessions);
      }
      outcome := Ok(());
    }

    /** `handleSelectSession`. */
    method HandleSelectSession(id: string)
      requires Valid()
      modifies this
      ensures Valid()
      ensures state == Select(old(state), id)
    {
      state := state.(activeId := Some(id));
    }

    /** `handleInitialized`. */
    method HandleInitialized(id: string)
      requires Valid()
      modifies this
      ensures Valid()
      ensures state == MarkInitialized(old(state), id)
    {
      state := MarkInitialized(state, id);
      assert forall s :: s in state.sessions ==> s in old(state.sessions) || s.id == id;
    }

    /** `handleRenameSession`. */
    method HandleRenameSession(id: string, name: string)
      requires Valid()
      modifies this
      ensures Valid()
      ensures state == Rename(old(state), id, name)
    {
      state := Rename(state, id, name);
    }
  }

  /** Two panels mounted on one shared counter. Whatever one of them mints or
      restores only raises the counter, so the other one stays valid, and the
      ids the two mint differ. */
  method TwoPanels(counter: SessionCounter, savedA: Option<SessionState>, savedB: Option<SessionState>,
                   u1: Uuid, u2: Uuid, u3: Uuid, u4: Uuid)
    returns (a: SessionPanel, b: SessionPanel, idB: string, idA: string)
    modifies counter
    ensures a.Valid() && b.Valid() && a.counter == b.counter == counter
    ensures idA != idB
    ensures a.state.activeId == Some(idA) && b.state.activeId == Some(idB)
  {
    a := new SessionPanel(counter, savedA, u1);
    ghost var aSessions := a.state.sessions;
    ghost var afterA := counter.value;
    b := new SessionPanel(counter, savedB, u2);
    assert afterA <= counter.value by {
      assert Restore(savedB, afterA, u2).counter == counter.value;
    }
    CounterAheadMonotone(aSessions, afterA, counter.value);
    var beforeB := counter.value;
    b.HandleNewSession(u3);
    idB := Minted(beforeB, u3).id;
    assert a.state.sessions == aSessions;
    CounterAheadMonotone(aSessions, beforeB, counter.value);
    var beforeA := counter.value;
    ghost var bSessions := b.state.sessions;
    a.HandleNewSession(u4);
    idA := Minted(beforeA, u4).id;
    assert b.state.sessions == bSessions;
    CounterAheadMonotone(bSessions, beforeA, counter.value);
    assert IdSuffix(idB) == beforeB + 1 < beforeA + 1 == IdSuffix(idA);
  }

  /** Selecting an id that is not listed and then closing it makes the
      close updater throw: the failure is reachable from a fresh panel. */
  method CloseAfterUnlistedSelect(u1: Uuid, u2: Uuid) returns (outcome: Result<(), CloseError>)
    ensures outcome == Err(ActiveSessionMissing)
  {
    var counter := new SessionCounter();
    var p := new SessionPanel(counter, None, u1);
    var unlisted := "ghost";
    assert p.state.sessions == [Minted(0, u1)];
    assert p.state.sessions[0].id[..|IdPrefix|] == IdPrefix;
    p.HandleSelectSession(unlisted);
    CloseFails(p.state, unlisted, counter.value, u2);
    outcome := p.HandleCloseSession(unlisted, u2);
  }
}
