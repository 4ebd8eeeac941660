/** All connections of a server at once: their completions interleave in any order, and each call of
    `log_request` is one step, since it is made under the server's lock. */
module SessionWorld {
  import opened SessionMachine
  import opened Server

  datatype World = World(sessions: seq<Session>, requests: map<(string, int), nat>)

  datatype Move = Accepted(s: Session) | Completed(i: nat, e: Event, junk: (int, int)) | Logged(i: nat, key: (string, int))

  predicate Enabled(w: World, m: Move) {
    match m
    case Accepted(s) => IsNew(s)
    case Completed(i, e, junk) => i < |w.sessions| && Fits(w.sessions[i], e)
    case Logged(i, _) => i < |w.sessions| && w.sessions[i].unlogged > 0
  }

  function Next(env: Env, w: World, m: Move): World
    requires Enabled(w, m)
  {
    match m
    case Accepted(s) => w.(sessions := w.sessions + [s])
    case Completed(i, e, junk) => w.(sessions := w.sessions[i := Step(env, w.sessions[i], e, junk)])
    case Logged(i, key) =>
      World(w.sessions[i := w.sessions[i].(unlogged := w.sessions[i].unlogged - 1)], Counted(w.requests, key))
  }

  ghost predicate Reaches(env: Env, w: World, ms: seq<Move>, w': World)
    decreases |ms|
  {
    if ms == [] then w' == w else Enabled(w, ms[0]) && Reaches(env, Next(env, w, ms[0]), ms[1..], w')
  }

  // ----- sums -----

  /** The calls of `log_request` that a session has completed. */
  function Done(s: Session): int { s.responses - s.unlogged }

  function AllDone(sessions: seq<Session>): int {
    if sessions == [] then 0 else Done(sessions[0]) + AllDone(sessions[1..])
  }

  function AllResponses(sessions: seq<Session>): nat {
    if sessions == [] then 0 else sessions[0].responses + AllResponses(sessions[1..])
  }

  lemma {:induction false} DoneAfterUpdate(sessions: seq<Session>, i: nat, s: Session)
    requires i < |sessions|
    ensures AllDone(sessions[i := s]) == AllDone(sessions) - Done(sessions[i]) + Done(s)
    decreases |sessions|
  {
    if i > 0 {
      assert sessions[i := s][1..] == sessions[1..][i - 1 := s];
      DoneAfterUpdate(sessions[1..], i - 1, s);
    } else {
      assert sessions[i := s][1..] == sessions[1..];
    }
  }

  lemma {:induction false} DoneAfterAppend(sessions: seq<Session>, s: Session)
    ensures AllDone(sessions + [s]) == AllDone(sessions) + Done(s)
    decreases |sessions|
  {
    if sessions == [] {
      assert sessions + [s] == [s] && [s][1..] == [];
    } else {
      assert (sessions + [s])[1..] == sessions[1..] + [s];
      DoneAfterAppend(sessions[1..], s);
    }
  }

  /** The sum of all counts. */
  ghost function Total<K>(m: map<K, nat>): nat
    decreases |m|
  {
    if m == map[] then 0
    else
      var k :| k in m;
      m[k] + Total(m - {k})
  }

  lemma {:induction false} TotalWithout<K>(m: map<K, nat>, k: K)
    requires k in m
    ensures Total(m) == m[k] + Total(m - {k})
    decreases |m|
  {
    var j :| j in m && Total(m) == m[j] + Total(m - {j});
    if j != k {
      TotalWithout(m - {j}, k);
      TotalWithout(m - {k}, j);
      assert m - {j} - {k} == m - {k} - {j};
    }
  }

  lemma TotalCounted(m: map<(string, int), nat>, key: (string, int))
    ensures Total(Counted(m, key)) == Total(m) + 1
  {
    var m' := Counted(m, key);
    TotalWithout(m', key);
    assert m' - {key} == m - {key};
    if key in m {
      TotalWithout(m, key);
    } else {
      assert m - {key} == m;
    }
  }

  // ----- every interleaving -----

  /** Nothing is counted that was not answered, and nothing is counted twice. */
  ghost predicate Inv(env: Env, w: World) {
    Total(w.requests) == AllDone(w.sessions) &&
    forall i :: 0 <= i < |w.sessions| ==> SessionMachine.Inv(env, w.sessions[i]) && w.sessions[i].unlogged <= w.sessions[i].responses
  }

  lemma StepCounts(env: Env, s: Session, e: Event, junk: (int, int))
    requires Fits(s, e)
    ensures Done(Step(env, s, e, junk)) == Done(s)
    ensures s.unlogged <= s.responses ==> Step(env, s, e, junk).unlogged <= Step(env, s, e, junk).responses
  {
  }

  lemma CompletedKeepsInv(env: Env, w: World, i: nat, e: Event, junk: (int, int))
    requires Inv(env, w) && Enabled(w, Completed(i, e, junk))
    ensures Inv(env, Next(env, w, Completed(i, e, junk)))
  {
    StepKeepsInv(env, w.sessions[i], e, junk);
    StepCounts(env, w.sessions[i], e, junk);
    DoneAfterUpdate(w.sessions, i, Step(env, w.sessions[i], e, junk));
  }

  lemma NextKeepsInv(env: Env, w: World, m: Move)
    requires Inv(env, w) && Enabled(w, m)
    ensures Inv(env, Next(env, w, m))
  {
    match m
    case Accepted(s) => DoneAfterAppend(w.sessions, s);
    case Completed(i, e, junk) => CompletedKeepsInv(env, w, i, e, junk);
    case Logged(i, key) =>
      DoneAfterUpdate(w.sessions, i, w.sessions[i].(unlogged := w.sessions[i].unlogged - 1));
      TotalCounted(w.requests, key);
  }

  lemma {:induction false} AllLogged(sessions: seq<Session>)
    requires forall i :: 0 <= i < |sessions| ==> sessions[i].unlogged == 0
    ensures AllDone(sessions) == AllResponses(sessions)
  {
    if sessions != [] {
      assert sessions[0].unlogged == 0;
      AllLogged(sessions[1..]);
    }
  }

  /** Over every interleaving of all connections, the counts add up to the completed calls of
      `log_request`; once no call is under way, to the responses that were begun. */
  lemma {:induction false} CountsAreConserved(env: Env, w: World, ms: seq<Move>, w': World)
    requires Inv(env, w) && Reaches(env, w, ms, w')
    ensures Inv(env, w') && Total(w'.requests) == AllDone(w'.sessions)
    ensures (forall i :: 0 <= i < |w'.sessions| ==> w'.sessions[i].unlogged == 0) ==>
              Total(w'.requests) == AllResponses(w'.sessions)
    decreases |ms|
  {
    if ms == [] {
      if forall i :: 0 <= i < |w'.sessions| ==> w'.sessions[i].unlogged == 0 {
        AllLogged(w'.sessions);
      }
    } else {
      NextKeepsInv(env, w, ms[0]);
      CountsAreConserved(env, Next(env, w, ms[0]), ms[1..], w');
    }
  }

  /** A server that has accepted nothing satisfies the invariant. */
  lemma EmptyWorld(env: Env)
    ensures Inv(env, World([], map[]))
  {
  }
}
