/** Nested transactions of the diesel backend (rsfbclient-diesel/src/fb/transaction.rs),
    simulated by savepoints whose names are reused, on top of a connection with its default
    transaction, against an ideal stack of snapshots. */
module Savepoints {
  import opened Wrappers
  import Connection

  type Log = Connection.Log

  /** How transactions are configured does not matter here. */
  const CONF: nat := 0

  // ---------------------------------------------------------------- the server

  /** `name` n stands for the savepoint `sp_diesel_n`; `at` are the writes the transaction held
      when it was set. */
  datatype Savepoint = Savepoint(name: nat, at: Log)

  function Without(saves: seq<Savepoint>, name: nat): seq<Savepoint> {
    if saves == [] then []
    else (if saves[0].name == name then [] else [saves[0]]) + Without(saves[1..], name)
  }

  /** The index of the named savepoint, or the number of savepoints. */
  function Find(saves: seq<Savepoint>, name: nat): (k: nat)
    ensures k <= |saves|
    ensures k < |saves| ==> saves[k].name == name
  {
    if saves == [] then 0 else if saves[0].name == name then 0 else 1 + Find(saves[1..], name)
  }

  /** `savepoint`: a savepoint of the same name is replaced. */
  function Saved(saves: seq<Savepoint>, name: nat, at: Log): seq<Savepoint> {
    Without(saves, name) + [Savepoint(name, at)]
  }

  /** What `rollback to savepoint` does to the writes; it fails when there is no such savepoint.
      Later savepoints are gone, the named one stays. */
  function Back(saves: seq<Savepoint>, name: nat, ok: bool): (closure: Connection.Closure)
    ensures closure.Fits()
  {
    var k := Find(saves, name);
    if ok && k < |saves| then Connection.Closure([Connection.Undo(saves[k].at)], true)
    else Connection.Closure([], false)
  }

  // ---------------------------------------------------------------- the manager

  /** `TransactionManagerStatus`; depth 0 is no transaction. */
  datatype Status = Valid(depth: nat) | InError

  datatype Error = BrokenTransactionManager | NotInTransaction | DatabaseError | RollbackErrorOnCommit

  /** The manager, the connection below it, and the savepoints of its default transaction. */
  datatype State = State(status: Status, conn: Connection.Abs, saves: seq<Savepoint>)

  /** What the server says to a statement, and to the requests around it. */
  datatype Verdict = Verdict(stmt: bool, env: Connection.Env)

  /** The connection is in a block when the manager believes to be in a transaction. */
  predicate InStep(st: State) {
    (st.conn.block ==> st.conn.conf.Some?)
    && (st.conn.conf.None? ==> st.conn.pending == [])
    && (st.status.Valid? ==>
          (st.status.depth > 0 <==> st.conn.block) && (st.status.depth == 0 ==> st.conn.pending == []))
  }

  function Failed(e: Option<Connection.Error>): Option<Error> {
    if e.None? then None else Some(DatabaseError)
  }

  /** `begin_transaction`. */
  function BeginTransaction(st: State, v: Verdict): (r: (State, Option<Error>))
    ensures InStep(st) ==> InStep(r.0)
  {
    match st.status
    case InError => (st, Some(BrokenTransactionManager))
    case Valid(depth) =>
      var (conn, e) := if depth == 0 then Connection.SpecBegin(st.conn, CONF, v.env)
                       else Connection.SpecWith(st.conn, CONF, Connection.Closure([], v.stmt), v.env);
      if e.Some? then (st.(conn := conn), Failed(e))
      else
        (State(Valid(depth + 1), conn, if depth == 0 then st.saves else Saved(st.saves, depth + 1, conn.pending)), None)
  }

  /** `rollback_transaction`. */
  function RollbackTransaction(st: State, v: Verdict): (r: (State, Option<Error>))
    ensures InStep(st) ==> InStep(r.0)
  {
    match st.status
    case InError => (st, Some(BrokenTransactionManager))
    case Valid(depth) =>
      if depth == 0 then (st, Some(NotInTransaction))
      else
        var (conn, e) := if depth == 1 then Connection.SpecEnd(st.conn, CONF, false, v.env)
                         else Connection.SpecWith(st.conn, CONF, Back(st.saves, depth, v.stmt), v.env);
        if e.Some? then (State(InError, conn, st.saves), Failed(e))
        else
          (State(Valid(depth - 1), conn, if depth == 1 then [] else st.saves[..Find(st.saves, depth) + 1]), None)
  }

  /** `commit_transaction`; when the commit itself fails, a rollback follows, to which the server
      says `again`. */
  function CommitTransaction(st: State, v: Verdict, again: Verdict): (r: (State, Option<Error>))
    ensures InStep(st) ==> InStep(r.0)
  {
    match st.status
    case InError => (st, Some(BrokenTransactionManager))
    case Valid(depth) =>
      if depth == 0 then (st, Some(NotInTransaction))
      else if depth > 1 then (st.(status := Valid(depth - 1)), None)
      else
        var (conn, e) := Connection.SpecEnd(st.conn, CONF, true, v.env);
        if e.None? then (State(Valid(0), conn, []), None)
        else
          var (st', e') := RollbackTransaction(st.(conn := conn), again);
          if e'.None? then (st', Failed(e)) else (st', Some(RollbackErrorOnCommit))
  }

  /** A statement of the application goes to the connection, whatever the manager believes. */
  function ExecuteWrite(st: State, w: nat, v: Verdict): (r: (State, Option<Error>))
    ensures InStep(st) ==> InStep(r.0)
  {
    var (conn, e) := Connection.SpecWith(st.conn, CONF, Connection.Statement(w, v.stmt), v.env);
    assert Connection.ActAll(Connection.Started(st.conn, CONF), []) == Connection.Started(st.conn, CONF);
    (st.(conn := conn), Failed(e))
  }

  class FbConnection {
    const raw: Connection.Connection
    var status: Status
    /** The savepoints of the default transaction; the server keeps them. */
    var saves: seq<Savepoint>

    constructor ()
      ensures Valid() && fresh(raw)
      ensures View() == State(Status.Valid(0), Connection.Abs([], [], false, None), [])
    {
      raw := new Connection.Connection(CONF);
      status := Status.Valid(0);
      saves := [];
    }

    ghost predicate Valid()
      reads this, raw
    {
      raw.Valid() && raw.defConf == CONF && InStep(View())
    }

    ghost function View(): State
      requires raw.Valid()
      reads this, raw
    {
      State(status, raw.View(), saves)
    }

    method Begin(v: Verdict) returns (e: Option<Error>)
      requires Valid()
      modifies this, raw
      ensures Valid() && (View(), e) == BeginTransaction(old(View()), v)
    {
      if status.InError? {
        return Some(BrokenTransactionManager);
      }
      var depth := status.depth;
      if depth != 0 {
        var failure := raw.WithTransaction(CONF, Connection.Closure([], v.stmt), v.env);
        if failure.Some? {
          return Some(DatabaseError);
        }
        saves := Saved(saves, depth + 1, raw.Pending());
      } else {
        var failure := raw.BeginTransaction(CONF, v.env);
        if failure.Some? {
          return Some(DatabaseError);
        }
      }
      status := Status.Valid(depth + 1);
      return None;
    }

    method Rollback(v: Verdict) returns (e: Option<Error>)
      requires raw.Valid() && raw.defConf == CONF
      modifies this, raw
      ensures raw.Valid() && (View(), e) == RollbackTransaction(old(View()), v)
      ensures old(Valid()) ==> Valid()
    {
      if status.InError? {
        return Some(BrokenTransactionManager);
      }
      var depth := status.depth;
      var failure;
      if depth == 1 {
        failure := raw.EndBlock(false, v.env);
      } else if depth > 1 {
        failure := raw.WithTransaction(CONF, Back(saves, depth, v.stmt), v.env);
      } else {
        return Some(NotInTransaction);
      }
      if failure.None? {
        saves := if depth == 1 then [] else saves[..Find(saves, depth) + 1];
        status := Status.Valid(depth - 1);
        return None;
      }
      status := InError;
      return Some(DatabaseError);
    }

    method Commit(v: Verdict, again: Verdict) returns (e: Option<Error>)
      requires Valid()
      modifies this, raw
      ensures Valid() && (View(), e) == CommitTransaction(old(View()), v, again)
    {
      if status.InError? {
        return Some(BrokenTransactionManager);
      }
      var depth := status.depth;
      if depth == 0 {
        return Some(NotInTransaction);
      }
      // Committing an inner level releases nothing
      if depth > 1 {
        status := Status.Valid(depth - 1);
        return None;
      }
      var failure := raw.EndBlock(true, v.env);
      if failure.None? {
        saves := [];
        status := Status.Valid(0);
        return None;
      }
      var rollbackError := Rollback(again);
      if rollbackError.Some? {
        status := InError;
        return Some(RollbackErrorOnCommit);
      }
      return Some(DatabaseError);
    }

    /** `execute_returning_count` and `batch_execute`: the manager is not asked. */
    method Execute(w: nat, v: Verdict) returns (e: Option<Error>)
      requires Valid()
      modifies raw
      ensures Valid() && (View(), e) == ExecuteWrite(old(View()), w, v)
    {
      var failure := raw.Execute(w, v.stmt, v.env);
      return Failed(failure);
    }
  }

  // ---------------------------------------------------------------- the ideal

  /** Committed state, and for every level that is open the uncommitted writes at its begin,
      besides those there are now. */
  datatype Ideal = Ideal(committed: Log, stack: seq<Log>, pending: Log)

  datatype Op = Begin | Write(w: nat) | Commit | Rollback

  function IdealStep(s: Ideal, op: Op): Ideal {
    match op
    case Begin => s.(stack := s.stack + [s.pending])
    case Write(w) => if s.stack == [] then s.(committed := s.committed + [w]) else s.(pending := s.pending + [w])
    case Commit =>
      if s.stack == [] then s
      else if |s.stack| == 1 then Ideal(s.committed + s.pending, [], [])
      else s.(stack := s.stack[..|s.stack| - 1])
    case Rollback =>
      if s.stack == [] then s
      else s.(pending := s.stack[|s.stack| - 1], stack := s.stack[..|s.stack| - 1])
  }

  function IdealRun(s: Ideal, ops: seq<Op>): Ideal
    decreases |ops|
  {
    if ops == [] then s else IdealRun(IdealStep(s, ops[0]), ops[1..])
  }

  /** The savepoints in use: names 2 to `depth`. */
  function Live(saves: seq<Savepoint>, depth: nat): seq<Savepoint> {
    if saves == [] then []
    else (if 2 <= saves[0].name <= depth then [saves[0]] else []) + Live(saves[1..], depth)
  }

  /** What they should be: level d was opened at snapshot d - 1 of the stack. */
  function Wanted(stack: seq<Log>): (saves: seq<Savepoint>)
    ensures |saves| == if stack == [] then 0 else |stack| - 1
  {
    if |stack| < 2 then [] else Wanted(stack[..|stack| - 1]) + [Savepoint(|stack|, stack[|stack| - 1])]
  }

  /** The simulation: leftovers of levels that are not open any more do not matter. */
  ghost predicate Simulates(st: State, s: Ideal) {
    InStep(st)
    && st.status == Valid(|s.stack|)
    && st.conn.committed == s.committed && st.conn.pending == s.pending
    && (s.stack != [] ==> s.stack[0] == [] && Live(st.saves, |s.stack|) == Wanted(s.stack))
  }

  lemma {:induction false} LiveConcat(a: seq<Savepoint>, b: seq<Savepoint>, depth: nat)
    ensures Live(a + b, depth) == Live(a, depth) + Live(b, depth)
  {
    if a == [] {
      assert a + b == b;
    } else {
      assert (a + b)[1..] == a[1..] + b;
      LiveConcat(a[1..], b, depth);
    }
  }

  /** Dropping the name of the next level leaves the savepoints in use. */
  lemma {:induction false} LiveWithout(saves: seq<Savepoint>, depth: nat)
    ensures Live(Without(saves, depth + 1), depth + 1) == Live(saves, depth)
  {
    if saves != [] {
      LiveWithout(saves[1..], depth);
      var kept := if saves[0].name == depth + 1 then [] else [saves[0]];
      LiveConcat(kept, Without(saves[1..], depth + 1), depth + 1);
      assert kept != [] ==> kept[1..] == [];
    }
  }

  /** Closing a level only takes its own savepoint out of use. */
  lemma {:induction false} LiveShrinks(saves: seq<Savepoint>, depth: nat)
    requires depth >= 1
    ensures Live(saves, depth - 1) == Live(Live(saves, depth), depth - 1)
  {
    if saves != [] {
      LiveShrinks(saves[1..], depth);
      var first := if 2 <= saves[0].name <= depth then [saves[0]] else [];
      LiveConcat(first, Live(saves[1..], depth), depth - 1);
      assert first != [] ==> first[1..] == [];
    }
  }

  lemma {:induction false} WantedNames(stack: seq<Log>)
    ensures forall i :: 0 <= i < |Wanted(stack)| ==> Wanted(stack)[i].name == i + 2
  {
    if |stack| >= 2 {
      WantedNames(stack[..|stack| - 1]);
    }
  }

  lemma {:induction false} LiveOfWanted(stack: seq<Log>)
    requires stack != []
    ensures Live(Wanted(stack), |stack| - 1) == Wanted(stack[..|stack| - 1])
    ensures Live(Wanted(stack), |stack|) == Wanted(stack)
  {
    var n := |stack|;
    if n >= 2 {
      var below := stack[..n - 1];
      LiveOfWanted(below);
      var top := Savepoint(n, stack[n - 1]);
      LiveOne(top, n - 1);
      LiveOne(top, n);
      WantedNames(below);
      LiveConcat(Wanted(below), [top], n - 1);
      LiveConcat(Wanted(below), [top], n);
      LiveAll(Wanted(below), n);
    }
  }

  lemma LiveOne(save: Savepoint, depth: nat)
    ensures Live([save], depth) == if 2 <= save.name <= depth then [save] else []
  {
  }

  lemma {:induction false} LiveAll(saves: seq<Savepoint>, depth: nat)
    requires forall i :: 0 <= i < |saves| ==> 2 <= saves[i].name <= depth
    ensures Live(saves, depth) == saves
  {
    if saves != [] {
      LiveAll(saves[1..], depth);
    }
  }

  /** When the savepoints in use end with that of the top level, it is found, and everything
      behind it is left over from closed levels. */
  lemma {:induction false} TopSavepoint(saves: seq<Savepoint>, depth: nat, below: seq<Savepoint>, top: Savepoint)
    requires depth >= 2 && top.name == depth
    requires Live(saves, depth) == below + [top]
    requires forall i :: 0 <= i < |below| ==> below[i].name != depth
    ensures var k := Find(saves, depth);
            k < |saves| && saves[k] == top && Live(saves[..k + 1], depth) == below + [top]
    decreases |saves|
  {
    var first := saves[0];
    if first.name == depth {
      assert Live(saves, depth)[0] == first;
      assert (below + [top])[0] == first;
      assert below == [];
      assert Live(saves, depth) == [first] + Live(saves[1..], depth);
      assert Find(saves, depth) == 0 && saves[..1] == [first] && [first][1..] == [];
    } else {
      var rest := below;
      if 2 <= first.name <= depth {
        assert Live(saves, depth) == [first] + Live(saves[1..], depth);
        assert (below + [top])[0] == first;
        assert below != [] && below[0] == first;
        rest := below[1..];
        assert (below + [top])[1..] == rest + [top];
      }
      TopSavepoint(saves[1..], depth, rest, top);
      var k := Find(saves, depth);
      assert saves[..k + 1][1..] == saves[1..][..k];
    }
  }

  lemma {:induction false} NothingLive(saves: seq<Savepoint>, depth: nat)
    requires depth < 2
    ensures Live(saves, depth) == []
  {
    if saves != [] {
      NothingLive(saves[1..], depth);
    }
  }

  lemma LiveSaved(saves: seq<Savepoint>, depth: nat, at: Log)
    requires depth >= 1
    ensures Live(Saved(saves, depth + 1, at), depth + 1) == Live(saves, depth) + [Savepoint(depth + 1, at)]
  {
    var top := Savepoint(depth + 1, at);
    LiveWithout(saves, depth);
    LiveConcat(Without(saves, depth + 1), [top], depth + 1);
    LiveOne(top, depth + 1);
  }

  lemma ClosedLevel(saves: seq<Savepoint>, stack: seq<Log>)
    requires |stack| >= 2 && Live(saves, |stack|) == Wanted(stack)
    ensures Live(saves, |stack| - 1) == Wanted(stack[..|stack| - 1])
  {
    LiveShrinks(saves, |stack|);
    LiveOfWanted(stack);
  }

  lemma TopWanted(below: seq<Log>, top: Log)
    requires below != []
    ensures Wanted(below + [top]) == Wanted(below) + [Savepoint(|below| + 1, top)]
    ensures Live(Wanted(below) + [Savepoint(|below| + 1, top)], |below|) == Wanted(below)
    ensures forall i :: 0 <= i < |Wanted(below)| ==> Wanted(below)[i].name != |below| + 1
  {
    var stack := below + [top];
    assert stack[..|stack| - 1] == below;
    LiveOfWanted(stack);
    WantedNames(below);
  }

  lemma RolledBackSaves(saves: seq<Savepoint>, depth: nat, below: seq<Savepoint>, top: Savepoint)
    requires depth >= 2 && top.name == depth && Live(saves, depth) == below + [top]
    requires forall i :: 0 <= i < |below| ==> below[i].name != depth
    requires Live(below + [top], depth - 1) == below
    ensures var k := Find(saves, depth);
            k < |saves| && saves[k].at == top.at && Live(saves[..k + 1], depth - 1) == below
  {
    TopSavepoint(saves, depth, below, top);
    LiveShrinks(saves[..Find(saves, depth) + 1], depth);
  }

  lemma TopRolledBack(saves: seq<Savepoint>, below: seq<Log>, top: Log)
    requires below != [] && Live(saves, |below| + 1) == Wanted(below + [top])
    ensures var k := Find(saves, |below| + 1);
            k < |saves| && saves[k].at == top && Live(saves[..k + 1], |below|) == Wanted(below)
  {
    hide Live, Wanted;
    TopWanted(below, top);
    RolledBackSaves(saves, |below| + 1, Wanted(below), Savepoint(|below| + 1, top));
  }

  // ---------------------------------------------------------------- one level

  /** What a statement does to the writes of a transaction. */
  lemma OneAction(conn: Connection.Abs, action: Connection.Action)
    ensures Connection.ActAll(conn, [action]) == Connection.Act(conn, action)
    ensures Connection.ActAll(conn, []) == conn
  {
    assert [action][1..] == [];
  }

  /** The conditions under which the server accepts to open a level. */
  predicate Opens(st: State, v: Verdict) {
    if st.conn.block then v.stmt else st.conn.conf.Some? || v.env.begin
  }

  lemma OpenedLevel(st: State, s: Ideal, v: Verdict)
    requires Simulates(st, s)
    ensures var (end, e) := BeginTransaction(st, v);
            if Opens(st, v) then e == None && Simulates(end, IdealStep(s, Begin)) && end.conn.conf.Some?
            else end == st && e == Some(DatabaseError)
  {
    hide Wanted, Live, Saved, Connection.ActAll;
    OneAction(st.conn, Connection.Undo([]));
    if s.stack == [] {
      NothingLive(st.saves, 1);
      assert Wanted([s.pending]) == [] by { NothingWanted(s.pending); }
    } else {
      LiveSaved(st.saves, |s.stack|, s.pending);
      TopWanted(s.stack, s.pending);
    }
  }

  lemma NothingWanted(pending: Log)
    ensures Wanted([pending]) == []
  {
  }

  predicate Closes(st: State, v: Verdict)
    requires st.status.Valid?
  {
    if st.status.depth == 1 then v.env.end else v.stmt
  }

  lemma RolledBackLevel(st: State, s: Ideal, v: Verdict)
    requires Simulates(st, s) && s.stack != []
    ensures var (end, e) := RollbackTransaction(st, v);
            && (end.conn.conf.Some? <==> st.conn.conf.Some?)
            && if Closes(st, v) then e == None && Simulates(end, IdealStep(s, Rollback))
               else
                 e == Some(DatabaseError)
                 && end == State(InError, st.conn.(block := |s.stack| > 1), st.saves)
  {
    hide Wanted, Live, Find, Connection.ActAll;
    var n := |s.stack|;
    if n > 1 {
      var below, top := s.stack[..n - 1], s.stack[n - 1];
      assert s.stack == below + [top];
      TopRolledBack(st.saves, below, top);
      OneAction(st.conn, Connection.Undo(top));
    }
  }

  // ---------------------------------------------------------------- every run

  /** An operation, what the server says to it, and what it says to the rollback that follows a
      refused commit. */
  datatype Call = Call(op: Op, v: Verdict, again: Verdict)

  function CallStep(st: State, call: Call): (r: (State, Option<Error>))
    ensures InStep(st) ==> InStep(r.0)
  {
    match call.op
    case Begin => BeginTransaction(st, call.v)
    case Write(w) => ExecuteWrite(st, w, call.v)
    case Commit => CommitTransaction(st, call.v, call.again)
    case Rollback => RollbackTransaction(st, call.v)
  }

  function CallRun(st: State, calls: seq<Call>): (r: (State, seq<Option<Error>>))
    ensures |r.1| == |calls|
    ensures InStep(st) ==> InStep(r.0)
    decreases |calls|
  {
    hide CallStep, InStep;
    if calls == [] then (st, [])
    else
      var (st1, e) := CallStep(st, calls[0]);
      var (st2, es) := CallRun(st1, calls[1..]);
      (st2, [e] + es)
  }

  /** What the application sees. While the manager runs, it is the stack of snapshots. Once a
      rollback was refused, it is the writes left behind, and whether the connection still has
      them in a block: it has not when the rollback was that of the outermost level. `held`
      tells whether there is a default transaction. */
  datatype Expected =
    | Running(s: Ideal, held: bool)
    | Broken(committed: Log, pending: Log, block: bool, held: bool)

  /** A write outside of any block. Either it is accepted, and everything pending is committed
      with it, or nothing pending is left. */
  function Settled(committed: Log, pending: Log, held: bool, w: nat, v: Verdict): (Log, Log, bool, Option<Error>) {
    if !held && !v.env.begin then (committed, pending, held, Some(DatabaseError))
    else if !v.env.end then (committed, [], false, Some(DatabaseError))
    else if v.stmt then (committed + (pending + [w]), [], true, None)
    else (committed, [], true, Some(DatabaseError))
  }

  function BrokenStep(m: Expected, op: Op, v: Verdict): (Expected, Option<Error>)
    requires m.Broken?
  {
    if !op.Write? then (m, Some(BrokenTransactionManager))
    else if !m.block then
      var (committed, pending, held, e) := Settled(m.committed, m.pending, m.held, op.w, v);
      (Broken(committed, pending, false, held), e)
    else if v.stmt then (m.(pending := m.pending + [op.w]), None)
    else (m, Some(DatabaseError))
  }

  function ExpectedStep(m: Expected, call: Call): (Expected, Option<Error>) {
    var Call(op, v, again) := call;
    match m
    case Broken(_, _, _, _) => BrokenStep(m, op, v)
    case Running(s, held) =>
      var next := Running(IdealStep(s, op), held || op.Begin?);
      if op.Write? && s.stack == [] then
        var (committed, pending, held', e) := Settled(s.committed, s.pending, held, op.w, v);
        (Running(Ideal(committed, [], pending), held'), e)
      else if op.Write? then if v.stmt then (next, None) else (m, Some(DatabaseError))
      else if op.Begin? then
        if (if s.stack == [] then held || v.env.begin else v.stmt) then (next, None) else (m, Some(DatabaseError))
      else if s.stack == [] then (m, Some(NotInTransaction))
      else if op.Rollback? then
        if (if |s.stack| == 1 then v.env.end else v.stmt) then (next, None)
        else (Broken(s.committed, s.pending, |s.stack| > 1, held), Some(DatabaseError))
      else if |s.stack| > 1 || v.env.end then (next, None)
      else if again.env.end then (Running(IdealStep(s, Rollback), held), Some(DatabaseError))
      else (Broken(s.committed, s.pending, false, held), Some(RollbackErrorOnCommit))
  }

  function ExpectedRun(m: Expected, calls: seq<Call>): (Expected, seq<Option<Error>>)
    decreases |calls|
  {
    if calls == [] then (m, [])
    else
      var (m1, e) := ExpectedStep(m, calls[0]);
      var (m2, es) := ExpectedRun(m1, calls[1..]);
      (m2, [e] + es)
  }

  ghost predicate Meets(st: State, m: Expected) {
    match m
    case Running(s, held) => Simulates(st, s) && (held <==> st.conn.conf.Some?)
    case Broken(committed, pending, block, held) =>
      InStep(st) && st.status.InError? && (held <==> st.conn.conf.Some?)
      && st.conn.committed == committed && st.conn.pending == pending && st.conn.block == block
  }

  lemma WriteSettles(st: State, w: nat, v: Verdict)
    requires InStep(st) && !st.conn.block
    ensures var (committed, pending, held, e) :=
              Settled(st.conn.committed, st.conn.pending, st.conn.conf.Some?, w, v);
            var (end, e') := ExecuteWrite(st, w, v);
            && end.status == st.status && end.saves == st.saves && e' == e && !end.conn.block
            && end.conn.committed == committed && end.conn.pending == pending && (end.conn.conf.Some? <==> held)
  {
    OneAction(Connection.Started(st.conn, CONF), Connection.Exec(w));
  }

  lemma WriteWaits(st: State, w: nat, v: Verdict)
    requires InStep(st) && st.conn.block
    ensures ExecuteWrite(st, w, v)
         == if v.stmt then (st.(conn := st.conn.(pending := st.conn.pending + [w])), None)
            else (st, Some(DatabaseError))
  {
    OneAction(st.conn, Connection.Exec(w));
  }

  /** One call, whatever the server says to it. */
  lemma CallMeets(st: State, m: Expected, call: Call)
    requires Meets(st, m)
    ensures Meets(CallStep(st, call).0, ExpectedStep(m, call).0)
    ensures CallStep(st, call).1 == ExpectedStep(m, call).1
  {
    hide Wanted, Live, Find, Without, ExecuteWrite, Connection.ActAll;
    match call.op
    case Write(w) => if st.conn.block { WriteWaits(st, w, call.v); } else { WriteSettles(st, w, call.v); }
    case Begin => if m.Running? { OpenedLevel(st, m.s, call.v); }
    case Rollback => if m.Running? && m.s.stack != [] { RolledBackLevel(st, m.s, call.v); }
    case Commit =>
      if m.Running? && |m.s.stack| > 1 {
        ClosedLevel(st.saves, m.s.stack);
      }
  }

  /** All is accepted. */
  const ACCEPT: Verdict := Verdict(true, Connection.Env(true, true, true))

  function StepWithoutFailure(st: State, op: Op): (State, Option<Error>) {
    CallStep(st, Call(op, ACCEPT, ACCEPT))
  }

  /** Without refusals, one step of the manager is one step of the ideal; it fails exactly when
      there is no level to close. */
  lemma StepSimulates(st: State, s: Ideal, op: Op)
    requires Simulates(st, s)
    ensures Simulates(StepWithoutFailure(st, op).0, IdealStep(s, op))
    ensures StepWithoutFailure(st, op).1
         == if (op.Commit? || op.Rollback?) && s.stack == [] then Some(NotInTransaction) else None
  {
    hide Simulates, CallStep;
    CallMeets(st, Running(s, st.conn.conf.Some?), Call(op, ACCEPT, ACCEPT));
    IdleIsEmpty(st, s);
  }

  lemma IdleIsEmpty(st: State, s: Ideal)
    requires Simulates(st, s)
    ensures s.stack == [] ==> s.pending == []
    ensures s.stack == [] ==> forall w :: s.committed + ([] + [w]) == s.committed + [w]
  {
    assert forall w: nat :: [] + [w] == [w];
  }

  function Run(st: State, ops: seq<Op>): State
    decreases |ops|
  {
    if ops == [] then st else Run(StepWithoutFailure(st, ops[0]).0, ops[1..])
  }

  /** Over every run without refusals the manager and its savepoints behave as the stack of
      snapshots does. */
  lemma {:induction false} RunSimulates(st: State, s: Ideal, ops: seq<Op>)
    requires Simulates(st, s)
    ensures Simulates(Run(st, ops), IdealRun(s, ops))
    decreases |ops|
  {
    hide Simulates, StepWithoutFailure, IdealStep;
    if ops != [] {
      StepSimulates(st, s, ops[0]);
      RunSimulates(StepWithoutFailure(st, ops[0]).0, IdealStep(s, ops[0]), ops[1..]);
    }
  }

  // ---------------------------------------------------------------- what the ideal gives

  /** How the number of open levels moves; a run that never closes a level it did not open. */
  predicate StaysAbove(ops: seq<Op>, extra: nat)
    decreases |ops|
  {
    ops == []
    || (match ops[0]
        case Begin => StaysAbove(ops[1..], extra + 1)
        case Write(_) => StaysAbove(ops[1..], extra)
        case _ => extra > 0 && StaysAbove(ops[1..], extra - 1))
  }

  function Opened(ops: seq<Op>, extra: nat): nat
    requires StaysAbove(ops, extra)
    decreases |ops|
  {
    if ops == [] then extra
    else match ops[0]
         case Begin => Opened(ops[1..], extra + 1)
         case Write(_) => Opened(ops[1..], extra)
         case _ => Opened(ops[1..], extra - 1)
  }

  /** The work inside a level never touches the snapshots of the levels around it. */
  lemma {:induction false} OuterSnapshotsStay(s: Ideal, outer: nat, ops: seq<Op>)
    requires 0 < outer <= |s.stack| && StaysAbove(ops, |s.stack| - outer)
    ensures var e := IdealRun(s, ops);
            && |e.stack| == outer + Opened(ops, |s.stack| - outer)
            && e.stack[..outer] == s.stack[..outer] && e.committed == s.committed
    decreases |ops|
  {
    if ops != [] {
      var next := IdealStep(s, ops[0]);
      assert next.stack[..outer] == s.stack[..outer];
      OuterSnapshotsStay(next, outer, ops[1..]);
    }
  }

  lemma {:induction false} IdealRunConcat(s: Ideal, a: seq<Op>, b: seq<Op>)
    ensures IdealRun(s, a + b) == IdealRun(IdealRun(s, a), b)
    decreases |a|
  {
    hide IdealStep;
    if a == [] {
      assert a + b == b;
    } else {
      assert (a + b)[1..] == a[1..] + b;
      IdealRunConcat(IdealStep(s, a[0]), a[1..], b);
    }
  }

  /** A block that is rolled back leaves no trace: whatever nested levels were opened, committed
      and rolled back inside it, everything is as it was at its begin. */
  lemma RolledBackBlockVanishes(s: Ideal, body: seq<Op>)
    requires StaysAbove(body, 0) && Opened(body, 0) == 0
    ensures IdealRun(s, [Begin] + body + [Rollback]) == s
  {
    var inner := IdealStep(s, Begin);
    var outer := |inner.stack|;
    OuterSnapshotsStay(inner, outer, body);
    var e := IdealRun(inner, body);
    assert e.stack == e.stack[..outer] && inner.stack == inner.stack[..outer];
    assert ([Begin] + body)[1..] == body;
    IdealRunConcat(s, [Begin] + body, [Rollback]);
    assert [Rollback][1..] == [];
    assert IdealRun(e, [Rollback]) == IdealStep(e, Rollback);
    assert inner.stack[..outer - 1] == s.stack;
  }

  /** The same for the manager: after a rolled back block its database is what it was at the
      matching begin, although inner commits release nothing and names are reused. */
  lemma RollbackRestoresBegin(st: State, s: Ideal, body: seq<Op>)
    requires Simulates(st, s)
    requires StaysAbove(body, 0) && Opened(body, 0) == 0
    ensures var end := Run(st, [Begin] + body + [Rollback]);
            end.conn.committed == st.conn.committed && end.conn.pending == st.conn.pending
            && end.status == st.status
  {
    RunSimulates(st, s, [Begin] + body + [Rollback]);
    RolledBackBlockVanishes(s, body);
  }

  /** An outermost block whose commit the server refuses, but whose rollback it accepts, is
      undone as well, and the caller is told. */
  lemma RefusedCommitIsUndone(st: State, s: Ideal, v: Verdict, again: Verdict)
    requires Simulates(st, s) && |s.stack| == 1 && !v.env.end && again.env.end
    ensures var (end, e) := CommitTransaction(st, v, again);
            e == Some(DatabaseError) && Simulates(end, IdealStep(s, Rollback))
  {
  }

  /** Over every run, whichever of its requests the server refuses: what the database holds,
      what waits, and what every call reports is what the application should see. */
  lemma {:induction false} CallsMeet(st: State, m: Expected, calls: seq<Call>)
    requires Meets(st, m)
    ensures Meets(CallRun(st, calls).0, ExpectedRun(m, calls).0)
    ensures CallRun(st, calls).1 == ExpectedRun(m, calls).1
    decreases |calls|
  {
    hide Meets, CallStep, ExpectedStep, InStep;
    if calls != [] {
      CallMeets(st, m, calls[0]);
      CallsMeet(CallStep(st, calls[0]).0, ExpectedStep(m, calls[0]).0, calls[1..]);
    }
  }

  /** The manager breaks exactly when a rollback is refused while a level is open, be it asked
      for or following a refused outermost commit; and the connection is left in a block exactly
      when that level was an inner one. */
  lemma BreaksIff(st: State, s: Ideal, call: Call)
    requires Simulates(st, s)
    ensures var end := CallStep(st, call).0;
            && (end.status.InError? <==>
                  s.stack != []
                  && ((call.op.Rollback? && !Closes(st, call.v))
                      || (call.op.Commit? && |s.stack| == 1 && !call.v.env.end && !call.again.env.end)))
            && (end.status.InError? ==> (end.conn.block <==> |s.stack| > 1) && end.conn.committed == s.committed
                                        && end.conn.pending == s.pending)
  {
    hide Wanted, Live, Find, Without, CallStep;
    CallMeets(st, Running(s, st.conn.conf.Some?), call);
  }

  // ---------------------------------------------------------------- after a refused rollback

  /** The accepted writes of a run. */
  function Accepted(calls: seq<Call>, reports: seq<Option<Error>>): Log
    requires |calls| == |reports|
    decreases |calls|
  {
    if calls == [] then []
    else
      (if calls[0].op.Write? && reports[0].None? then [calls[0].op.w] else [])
      + Accepted(calls[1..], reports[1..])
  }

  /** There is a write, and the first one is accepted. */
  predicate FirstAccepted(calls: seq<Call>, reports: seq<Option<Error>>)
    requires |calls| == |reports|
    decreases |calls|
  {
    calls != []
    && if calls[0].op.Write? then reports[0].None? else FirstAccepted(calls[1..], reports[1..])
  }

  /** What every run of calls does once the manager is broken. If the refused rollback was that
      of an inner level, the connection still is in a block, and nothing is ever committed. If it
      was that of the outermost level, the connection is not, and the accepted writes are
      committed; the writes of the refused block are committed in front of them if the first
      write is accepted, and lost if it is not. All that is not a write reports the broken
      manager. */
  lemma {:induction false} BrokenRun(st: State, calls: seq<Call>)
    requires InStep(st) && st.status.InError?
    ensures var (end, reports) := CallRun(st, calls);
            var ws := Accepted(calls, reports);
            && end.status.InError? && (end.conn.block <==> st.conn.block)
            && (forall i :: 0 <= i < |calls| && !calls[i].op.Write? ==> reports[i] == Some(BrokenTransactionManager))
            && (st.conn.block ==>
                  end.conn.committed == st.conn.committed && end.conn.pending == st.conn.pending + ws)
            && (!st.conn.block ==>
                  end.conn.committed
                  == st.conn.committed + ((if FirstAccepted(calls, reports) then st.conn.pending else []) + ws))
    decreases |calls|
  {
    hide InStep, CallStep;
    if calls != [] {
      var call := calls[0];
      var st1 := CallStep(st, call).0;
      BrokenCall(st, call);
      BrokenRun(st1, calls[1..]);
      var reports := CallRun(st, calls).1;
      assert reports[1..] == CallRun(st1, calls[1..]).1;
      forall i | 0 <= i < |calls| && !calls[i].op.Write? ensures reports[i] == Some(BrokenTransactionManager) {
        assert i > 0 ==> calls[i] == calls[1..][i - 1] && reports[i] == reports[1..][i - 1];
      }
    }
  }

  /** The first call of such a run. */
  lemma BrokenCall(st: State, call: Call)
    requires InStep(st) && st.status.InError?
    ensures var (end, e) := CallStep(st, call);
            var w := if call.op.Write? && e.None? then [call.op.w] else [];
            && end.status.InError? && (end.conn.block <==> st.conn.block)
            && (!call.op.Write? ==> end == st && e == Some(BrokenTransactionManager))
            && (st.conn.block ==> end.conn.committed == st.conn.committed && end.conn.pending == st.conn.pending + w)
            && (!st.conn.block && call.op.Write? ==>
                  end.conn.pending == []
                  && end.conn.committed == st.conn.committed + (if e.None? then st.conn.pending + w else []))
  {
    hide ExecuteWrite, Connection.ActAll;
    if call.op.Write? {
      if st.conn.block { WriteWaits(st, call.op.w, call.v); } else { WriteSettles(st, call.op.w, call.v); }
    }
  }

  /** Exactly when anything is committed after the break: when a write is accepted and the
      refused rollback was that of the outermost level. And exactly when the whole refused block
      is committed with it: when the block was empty or the first write is accepted. */
  lemma BrokenCommitsIff(st: State, calls: seq<Call>)
    requires InStep(st) && st.status.InError?
    ensures var (end, reports) := CallRun(st, calls);
            var ws := Accepted(calls, reports);
            && (end.conn.committed != st.conn.committed <==> !st.conn.block && ws != [])
            && (!st.conn.block ==>
                  (end.conn.committed == st.conn.committed + (st.conn.pending + ws)
                   <==> st.conn.pending == [] || FirstAccepted(calls, reports)))
  {
    hide CallRun, Accepted, FirstAccepted, InStep;
    BrokenRun(st, calls);
    var reports := CallRun(st, calls).1;
    FirstIsAccepted(calls, reports);
  }

  lemma {:induction false} FirstIsAccepted(calls: seq<Call>, reports: seq<Option<Error>>)
    requires |calls| == |reports|
    ensures FirstAccepted(calls, reports) ==> Accepted(calls, reports) != []
    decreases |calls|
  {
    if calls != [] {
      FirstIsAccepted(calls[1..], reports[1..]);
    }
  }

  /** A block whose outermost rollback is refused is committed by the next write, although the
      manager reports itself broken. */
  lemma RefusedRollbackIsCommitted(p: nat, w: nat)
    ensures var refuse := ACCEPT.(env := Connection.Env(true, false, true));
            var start := State(Status.Valid(0), Connection.Abs([], [], false, None), []);
            var calls := [Call(Begin, ACCEPT, ACCEPT), Call(Write(p), ACCEPT, ACCEPT), Call(Rollback, refuse, ACCEPT),
                          Call(Commit, ACCEPT, ACCEPT), Call(Write(w), ACCEPT, ACCEPT)];
            CallRun(start, calls)
            == (State(InError, Connection.Abs([p, w], [], false, Some(CONF)), []),
                [None, None, Some(DatabaseError), Some(BrokenTransactionManager), None])
  {
    var refuse := ACCEPT.(env := Connection.Env(true, false, true));
    var c0, c1 := Call(Begin, ACCEPT, ACCEPT), Call(Write(p), ACCEPT, ACCEPT);
    var c2, c3, c4 := Call(Rollback, refuse, ACCEPT), Call(Commit, ACCEPT, ACCEPT), Call(Write(w), ACCEPT, ACCEPT);
    var s0 := State(Status.Valid(0), Connection.Abs([], [], false, None), []);
    var s1 := State(Status.Valid(1), Connection.Abs([], [], true, Some(CONF)), []);
    var s2 := State(Status.Valid(1), Connection.Abs([], [p], true, Some(CONF)), []);
    var s3 := State(InError, Connection.Abs([], [p], false, Some(CONF)), []);
    var s4 := State(InError, Connection.Abs([p, w], [], false, Some(CONF)), []);
    assert CallStep(s0, c0) == (s1, None);
    assert CallStep(s1, c1) == (s2, None) by {
      WriteWaits(s1, p, ACCEPT);
      assert s1.conn.pending + [p] == [p];
    }
    assert CallStep(s2, c2) == (s3, Some(DatabaseError));
    assert CallStep(s3, c3) == (s3, Some(BrokenTransactionManager));
    assert CallStep(s3, c4) == (s4, None) by {
      OneAction(s3.conn, Connection.Exec(w));
      assert [] + ([p] + [w]) == [p, w];
    }
    hide CallStep, CallRun;
    var done: seq<Option<Error>> := [None];
    var broken: seq<Option<Error>> := [Some(BrokenTransactionManager), None];
    Unroll(s3, c4, []);
    assert CallRun(s3, [c4]) == (s4, [None]) by {
      assert [c4] + [] == [c4];
      assert done + [] == done;
    }
    Unroll(s3, c3, [c4]);
    assert CallRun(s3, [c3, c4]) == (s4, broken) by {
      assert [c3] + [c4] == [c3, c4];
      assert [Some(BrokenTransactionManager)] + [None] == broken;
    }
    Unroll(s2, c2, [c3, c4]);
    assert CallRun(s2, [c2, c3, c4]) == (s4, [Some(DatabaseError)] + broken) by {
      assert [c2] + [c3, c4] == [c2, c3, c4];
    }
    Unroll(s1, c1, [c2, c3, c4]);
    assert CallRun(s1, [c1, c2, c3, c4]) == (s4, [None, Some(DatabaseError)] + broken) by {
      assert [c1] + [c2, c3, c4] == [c1, c2, c3, c4];
      assert [None] + ([Some(DatabaseError)] + broken) == [None, Some(DatabaseError)] + broken;
    }
    Unroll(s0, c0, [c1, c2, c3, c4]);
    assert [c0] + [c1, c2, c3, c4] == [c0, c1, c2, c3, c4];
    assert [None] + ([None, Some(DatabaseError)] + broken)
        == [None, None, Some(DatabaseError), Some(BrokenTransactionManager), None];
  }

  lemma Unroll(st: State, call: Call, rest: seq<Call>)
    ensures [call] + rest != []
    ensures var (st1, e) := CallStep(st, call);
            var (st2, es) := CallRun(st1, rest);
            CallRun(st, [call] + rest) == (st2, [e] + es)
    ensures CallRun(st, []) == (st, [])
  {
    assert ([call] + rest)[1..] == rest;
  }
}
