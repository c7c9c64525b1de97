/** The default transaction of a connection (src/connection/mod.rs, src/transaction/mod.rs):
    taken, used and put back by every call, committed after each call outside an explicit
    block, and left alone inside one. */
module Connection {
  import opened Wrappers

  /** The writes a database or a transaction holds. */
  type Log = seq<nat>

  // ---------------------------------------------------------------- the server

  /** A transaction on the server: what it has not committed yet, and its configuration. */
  datatype Tx = Tx(pending: Log, conf: nat)

  datatype Server = Server(committed: Log, live: map<nat, Tx>, next: nat)

  datatype TrOp = Commit | CommitRetaining | Rollback | RollbackRetaining

  /** A transaction operation that succeeds. */
  function Operate(s: Server, h: nat, op: TrOp): Server
    requires h in s.live
  {
    var tx := s.live[h];
    match op
    case Commit => Server(s.committed + tx.pending, s.live - {h}, s.next)
    case CommitRetaining => Server(s.committed + tx.pending, s.live[h := tx.(pending := [])], s.next)
    case Rollback => s.(live := s.live - {h})
    case RollbackRetaining => s.(live := s.live[h := tx.(pending := [])])
  }

  // ---------------------------------------------------------------- what callers do

  /** What a closure does with its transaction: a write, going back to a savepoint at which it
      held other writes, or a retaining operation that may fail. */
  datatype Action = Exec(w: nat) | Undo(to: Log) | Retain(op: TrOp, ok: bool)

  predicate ActionFits(a: Action) {
    a.Retain? ==> a.op.CommitRetaining? || a.op.RollbackRetaining?
  }

  /** A closure: what it does, and whether it returns `Ok`. */
  datatype Closure = Closure(actions: seq<Action>, ok: bool) {
    predicate Fits() {
      forall i :: 0 <= i < |actions| ==> ActionFits(actions[i])
    }
  }

  /** Which of the requests a call makes succeed: beginning a transaction, the operation that
      ends the call, the rollback when a transaction is dropped. */
  datatype Env = Env(begin: bool, end: bool, drop_: bool)

  datatype Error = BeginFailed | ClosureFailed | EndFailed

  // ---------------------------------------------------------------- the specification

  /** What can be observed: committed writes, writes waiting in the default transaction, whether
      a block is open, and the configuration of the default transaction if there is one. */
  datatype Abs = Abs(committed: Log, pending: Log, block: bool, conf: Option<nat>)

  function Act(a: Abs, action: Action): Abs {
    match action
    case Exec(w) => a.(pending := a.pending + [w])
    case Undo(to) => a.(pending := to)
    case Retain(op, ok) =>
      if !ok then a
      else if op.CommitRetaining? then a.(committed := a.committed + a.pending, pending := [])
      else a.(pending := [])
  }

  function ActAll(a: Abs, actions: seq<Action>): (b: Abs)
    ensures b.block == a.block && b.conf == a.conf
    decreases |actions|
  {
    if actions == [] then a else ActAll(Act(a, actions[0]), actions[1..])
  }

  /** A transaction is there, with the given configuration if it had to be started. */
  function Started(a: Abs, conf: nat): Abs {
    if a.conf.Some? then a else Abs(a.committed, [], a.block, Some(conf))
  }

  function CanStart(a: Abs, env: Env): bool {
    a.conf.Some? || env.begin
  }

  /** `with_transaction_config`. */
  function SpecWith(a: Abs, conf: nat, closure: Closure, env: Env): (Abs, Option<Error>) {
    if !CanStart(a, env) then (a, Some(BeginFailed))
    else
      var b := ActAll(Started(a, conf), closure.actions);
      var result := if closure.ok then None else Some(ClosureFailed);
      if a.block then (b, result)
      else if !env.end then (Abs(b.committed, [], false, None), Some(EndFailed))
      else if closure.ok then (b.(committed := b.committed + b.pending, pending := []), result)
      else (b.(pending := []), result)
  }

  /** `begin_transaction_config`. */
  function SpecBegin(a: Abs, conf: nat, env: Env): (Abs, Option<Error>) {
    if !CanStart(a, env) then (a, Some(BeginFailed)) else (Started(a, conf).(block := true), None)
  }

  /** `commit` and `rollback`: the block is over whatever the server answers. */
  function SpecEnd(a: Abs, conf: nat, commit: bool, env: Env): (Abs, Option<Error>) {
    var a := a.(block := false);
    if !CanStart(a, env) then (a, Some(BeginFailed))
    else
      var b := Started(a, conf);
      if !env.end then (b, Some(EndFailed))
      else if commit then (b.(committed := b.committed + b.pending, pending := []), None)
      else (b.(pending := []), None)
  }

  // ---------------------------------------------------------------- the connection

  class Connection {
    /** The server behind the client. */
    var server: Server
    var defTr: Option<nat>
    var inTransaction: bool
    const defConf: nat
    /** Transactions nobody holds any more, left by rollbacks that failed while dropping. */
    ghost var leaked: set<nat>

    constructor (defConf: nat)
      ensures Valid() && leaked == {}
      ensures View() == Abs([], [], false, None) && this.defConf == defConf
    {
      server := Server([], map[], 0);
      defTr := None;
      inTransaction := false;
      this.defConf := defConf;
      leaked := {};
    }

    /** The live transactions are the default one and those leaked, and no others. */
    ghost predicate Valid()
      reads this
    {
      Holds(defTr)
    }

    /** The same while the transaction `tr` is out of its place. */
    ghost predicate Holds(tr: Option<nat>)
      reads this
    {
      server.live.Keys == leaked + (if tr.Some? then {tr.value} else {})
      && (tr.Some? ==> tr.value !in leaked)
      && forall h :: h in server.live ==> h < server.next
    }

    ghost function View(): Abs
      requires Valid()
      reads this
    {
      ViewOf(defTr)
    }

    ghost function ViewOf(tr: Option<nat>): Abs
      requires Holds(tr)
      reads this
    {
      match tr
      case None => Abs(server.committed, [], inTransaction, None)
      case Some(h) => Abs(server.committed, server.live[h].pending, inTransaction, Some(server.live[h].conf))
    }

    /** The writes waiting in the default transaction. */
    function Pending(): (log: Log)
      requires defTr.Some? ==> defTr.value in server.live
      reads this
    {
      if defTr.Some? then server.live[defTr.value].pending else []
    }

    /** `Transaction::new`, or the default transaction taken out of its place. */
    method Take(conf: nat, env: Env) returns (tr: Option<nat>)
      requires Valid()
      modifies this`server, this`defTr
      ensures defTr == None && Holds(tr)
      ensures tr.Some? <==> CanStart(old(View()), env)
      ensures ViewOf(tr) == if tr.Some? then Started(old(View()), conf) else old(View())
    {
      if defTr.Some? {
        tr := defTr;
        defTr := None;
        return;
      }
      if !env.begin {
        return None;
      }
      var h := server.next;
      server := Server(server.committed, server.live[h := Tx([], conf)], h + 1);
      return Some(h);
    }

    /** The closure runs. */
    method RunClosure(tr: nat, actions: seq<Action>)
      requires Holds(Some(tr)) && Closure(actions, true).Fits()
      modifies this`server
      ensures Holds(Some(tr))
      ensures ViewOf(Some(tr)) == ActAll(old(ViewOf(Some(tr))), actions)
    {
      for i := 0 to |actions|
        invariant Holds(Some(tr))
        invariant ActAll(ViewOf(Some(tr)), actions[i..]) == ActAll(old(ViewOf(Some(tr))), actions)
      {
        assert actions[i..][0] == actions[i] && actions[i..][1..] == actions[i + 1..];
        match actions[i]
        case Exec(w) =>
          var tx := server.live[tr];
          server := server.(live := server.live[tr := tx.(pending := tx.pending + [w])]);
        case Undo(to) =>
          server := server.(live := server.live[tr := server.live[tr].(pending := to)]);
        case Retain(op, ok) =>
          if ok {
            server := Operate(server, tr, op);
          }
      }
    }

    /** `Drop for Transaction`: a rollback whose error is ignored. */
    method DropTransaction(tr: nat, env: Env)
      requires defTr == None && Holds(Some(tr))
      modifies this`server, this`leaked
      ensures Valid()
      ensures View() == Abs(old(server.committed), [], inTransaction, None)
      ensures leaked == if env.drop_ then old(leaked) else old(leaked) + {tr}
    {
      if env.drop_ {
        server := Operate(server, tr, Rollback);
      } else {
        leaked := leaked + {tr};
      }
    }

    /** `with_transaction_config`. A transaction that cannot be ended is dropped on the way out
        of the call. */
    method WithTransaction(conf: nat, closure: Closure, env: Env) returns (res: Option<Error>)
      requires Valid() && closure.Fits()
      modifies this
      ensures Valid() && (View(), res) == SpecWith(old(View()), conf, closure, env)
      ensures env.drop_ ==> leaked == old(leaked)
    {
      hide Operate;
      var inTr := inTransaction;
      var tr := Take(conf, env);
      if tr.None? {
        return Some(BeginFailed);
      }
      RunClosure(tr.value, closure.actions);
      res := if closure.ok then None else Some(ClosureFailed);
      if !inTr {
        if !env.end {
          DropTransaction(tr.value, env);
          return Some(EndFailed);
        }
        Retaining(tr.value, closure.ok);
      }
      defTr := tr;
    }

    /** `commit_retaining` or `rollback_retaining` on a server that accepts it. */
    method Retaining(tr: nat, commit: bool)
      requires Holds(Some(tr))
      modifies this`server
      ensures Holds(Some(tr))
      ensures var a := old(ViewOf(Some(tr)));
              ViewOf(Some(tr)) == if commit then a.(committed := a.committed + a.pending, pending := [])
                                  else a.(pending := [])
    {
      server := Operate(server, tr, if commit then CommitRetaining else RollbackRetaining);
    }

    /** `begin_transaction_config`. */
    method BeginTransaction(conf: nat, env: Env) returns (res: Option<Error>)
      requires Valid()
      modifies this
      ensures Valid() && leaked == old(leaked)
      ensures (View(), res) == SpecBegin(old(View()), conf, env)
    {
      var tr := Take(conf, env);
      if tr.None? {
        return Some(BeginFailed);
      }
      defTr := tr;
      inTransaction := true;
      return None;
    }

    /** `commit` (or `rollback`): the closure that ends the block may fail, and the transaction
        is put back in either case. */
    method EndBlock(commit: bool, env: Env) returns (res: Option<Error>)
      requires Valid()
      modifies this
      ensures Valid() && leaked == old(leaked)
      ensures (View(), res) == SpecEnd(old(View()), defConf, commit, env)
    {
      hide Operate;
      inTransaction := false;
      var tr := Take(defConf, env);
      if tr.None? {
        return Some(BeginFailed);
      }
      res := None;
      if env.end {
        Retaining(tr.value, commit);
      } else {
        res := Some(EndFailed);
      }
      defTr := tr;
    }

    /** `execute`: one statement in `with_transaction`; a statement that fails writes nothing. */
    method Execute(w: nat, ok: bool, env: Env) returns (res: Option<Error>)
      requires Valid()
      modifies this
      ensures Valid() && (View(), res) == SpecWith(old(View()), defConf, Statement(w, ok), env)
      ensures env.drop_ ==> leaked == old(leaked)
    {
      res := WithTransaction(defConf, Statement(w, ok), env);
    }

    /** `cleanup_and_detach`, as far as transactions go: the default transaction is rolled
        back and the error ignored. */
    method Close(env: Env)
      requires Valid()
      modifies this
      ensures Valid() && defTr == None && server.committed == old(server.committed)
      ensures env.drop_ ==> server.live.Keys == old(leaked)
    {
      if defTr.Some? {
        var tr := defTr.value;
        defTr := None;
        DropTransaction(tr, env);
      }
    }
  }

  function Statement(w: nat, ok: bool): (closure: Closure)
    ensures closure.Fits()
  {
    Closure(if ok then [Exec(w)] else [], ok)
  }

  // ---------------------------------------------------------------- against the ideal

  /** What an application expects: committed writes, and those of the block it has open. */
  datatype Ideal = Ideal(committed: Log, block: Option<Log>)

  datatype Op =
    | With(conf: nat, closure: Closure, env: Env)
    | Begin(conf: nat, env: Env)
    | End(commit: bool, env: Env)

  function SpecStep(a: Abs, defConf: nat, op: Op): (Abs, Option<Error>) {
    match op
    case With(conf, closure, env) => SpecWith(a, conf, closure, env)
    case Begin(conf, env) => SpecBegin(a, conf, env)
    case End(commit, env) => SpecEnd(a, defConf, commit, env)
  }

  /** The writes of a closure that starts from `log`: those it committed itself on the way,
      and those left at its end. */
  function Writes(actions: seq<Action>, log: Log): (Log, Log)
    decreases |actions|
  {
    if actions == [] then ([], log)
    else
      match actions[0]
      case Exec(w) => Writes(actions[1..], log + [w])
      case Undo(to) => Writes(actions[1..], to)
      case Retain(op, ok) =>
        if !ok then Writes(actions[1..], log)
        else if op.CommitRetaining? then
          var (done, left) := Writes(actions[1..], []);
          (log + done, left)
        else Writes(actions[1..], [])
  }

  /** What a call should do, given what it reported. Outside a block a call that succeeds
      commits its writes, and one that fails leaves none but those the closure committed itself;
      inside a block nothing is committed or undone on its own. */
  function IdealStep(i: Ideal, op: Op, res: Option<Error>): Ideal {
    if res == Some(BeginFailed) then i
    else
      match op
      case With(_, closure, _) =>
        (match i.block
         case Some(log) =>
           var (done, left) := Writes(closure.actions, log);
           Ideal(i.committed + done, Some(left))
         case None =>
           var (done, left) := Writes(closure.actions, []);
           Ideal(i.committed + done + (if res.None? then left else []), None))
      case Begin(_, _) => if i.block.None? then i.(block := Some([])) else i
      case End(commit, _) =>
        Ideal(i.committed + (if commit && i.block.Some? then i.block.value else []), None)
  }

  /** The connection is where the application believes it to be. */
  predicate Matches(a: Abs, i: Ideal) {
    a.committed == i.committed
    && (a.block <==> i.block.Some?)
    && a.pending == (if i.block.Some? then i.block.value else [])
    && (a.block ==> a.conf.Some?)
  }

  lemma {:induction false} ActAllWrites(a: Abs, actions: seq<Action>)
    ensures var (done, left) := Writes(actions, a.pending);
            ActAll(a, actions) == a.(committed := a.committed + done, pending := left)
    decreases |actions|
  {
    if actions == [] {
      assert a.committed + [] == a.committed;
    } else {
      ActAllWrites(Act(a, actions[0]), actions[1..]);
      var (done, left) := Writes(actions[1..], []);
      assert a.committed + a.pending + done == a.committed + (a.pending + done);
    }
  }

  /** A call does what it should, unless it is a `commit` or `rollback` the server refuses. */
  lemma StepRefines(a: Abs, i: Ideal, defConf: nat, op: Op)
    requires Matches(a, i)
    requires !(op.End? && SpecStep(a, defConf, op).1 == Some(EndFailed))
    ensures Matches(SpecStep(a, defConf, op).0, IdealStep(i, op, SpecStep(a, defConf, op).1))
  {
    match op
    case With(conf, closure, env) =>
      if CanStart(a, env) {
        var b := Started(a, conf);
        ActAllWrites(b, closure.actions);
        var (done, left) := Writes(closure.actions, b.pending);
        assert i.committed + done + [] == i.committed + done;
      }
    case Begin(conf, env) =>
    case End(commit, env) =>
      assert a.committed + [] == a.committed;
  }

  /** What a call reports, and which transaction it leaves. Without a default transaction the server
      must accept to begin one. Outside a block it must accept the end; if it does not, the default
      transaction is gone. Otherwise the closure decides. The configuration asked for is that of a
      transaction that had to be begun. */
  lemma CallReports(a: Abs, defConf: nat, op: Op)
    ensures var (b, e) := SpecStep(a, defConf, op);
            var started := a.conf.Some? || op.env.begin;
            var asked := match op
                         case With(conf, _, _) => conf
                         case Begin(conf, _) => conf
                         case End(_, _) => defConf;
            var asksEnd := op.End? || (op.With? && !a.block);
            && (e == Some(BeginFailed) <==> !started)
            && (e == Some(EndFailed) <==> started && asksEnd && !op.env.end)
            && (e == Some(ClosureFailed) <==> started && (asksEnd ==> op.env.end) && op.With? && !op.closure.ok)
            && b.conf == (if !started || (op.With? && e == Some(EndFailed)) then None
                          else if a.conf.Some? then a.conf
                          else Some(asked))
            && (b.block <==> if op.Begin? then a.block || started else a.block && op.With?)
  {
  }

  /** Exactly when the connection still is where it should be after a refused `commit` or
      `rollback` of a block: when the block was empty. */
  lemma RefusedEndMatchesIff(a: Abs, i: Ideal, defConf: nat, commit: bool, env: Env)
    requires Matches(a, i) && a.block && !env.end
    ensures SpecEnd(a, defConf, commit, env).1 == Some(EndFailed)
    ensures (exists j :: Matches(SpecEnd(a, defConf, commit, env).0, j)) <==> i.block == Some([])
  {
    var b := SpecEnd(a, defConf, commit, env).0;
    if i.block == Some([]) {
      assert Matches(b, Ideal(a.committed, None));
    }
  }

  /** And what happens then: the refused block is no longer open, its writes stay in the default
      transaction, and the next call outside a block commits them together with its own. */
  lemma RefusedBlockIsCommittedLater(a: Abs, defConf: nat, commit: bool, refuse: Env, accept: Env, w: nat)
    requires a.block && a.conf.Some? && !refuse.end && accept.end
    ensures var b := SpecEnd(a, defConf, commit, refuse).0;
            !b.block
            && SpecWith(b, defConf, Statement(w, true), accept)
            == (Abs(a.committed + (a.pending + [w]), [], false, a.conf), None)
  {
    var b := SpecEnd(a, defConf, commit, refuse).0;
    assert [Exec(w)][1..] == [];
    assert ActAll(b, [Exec(w)]) == Act(b, Exec(w));
  }

  /** Exactly when beginning a block gives a transaction with the requested configuration: when
      there was no default transaction, or it happened to have that configuration. */
  lemma RequestedConfigurationIff(a: Abs, conf: nat, env: Env)
    requires SpecBegin(a, conf, env).1.None?
    ensures SpecBegin(a, conf, env).0.conf == Some(conf) <==> a.conf.None? || a.conf == Some(conf)
  {
  }

  function Run(a: Abs, defConf: nat, ops: seq<Op>): (r: (Abs, seq<Option<Error>>))
    ensures |r.1| == |ops|
    decreases |ops|
  {
    if ops == [] then (a, [])
    else
      var (b, res) := SpecStep(a, defConf, ops[0]);
      var (c, rest) := Run(b, defConf, ops[1..]);
      (c, [res] + rest)
  }

  function IdealRun(i: Ideal, ops: seq<Op>, results: seq<Option<Error>>): Ideal
    requires |results| == |ops|
    decreases |ops|
  {
    if ops == [] then i else IdealRun(IdealStep(i, ops[0], results[0]), ops[1..], results[1..])
  }

  /** Over every run of calls in which the server accepts each explicit `commit` and `rollback`
      it is asked for, whatever else fails: the committed writes are those of the successful
      calls outside blocks and of the committed blocks, in order, and the writes waiting are
      those of the open block. */
  lemma {:induction false} RunRefines(a: Abs, i: Ideal, defConf: nat, ops: seq<Op>)
    requires Matches(a, i)
    requires forall k :: 0 <= k < |ops| && ops[k].End? ==> Run(a, defConf, ops).1[k] != Some(EndFailed)
    ensures Matches(Run(a, defConf, ops).0, IdealRun(i, ops, Run(a, defConf, ops).1))
    decreases |ops|
  {
    hide SpecStep, IdealStep, Matches;
    if ops != [] {
      var results := Run(a, defConf, ops).1;
      var (b, res) := SpecStep(a, defConf, ops[0]);
      assert results[0] == res && results[1..] == Run(b, defConf, ops[1..]).1;
      StepRefines(a, i, defConf, ops[0]);
      forall k | 0 <= k < |ops[1..]| && ops[1..][k].End?
        ensures Run(b, defConf, ops[1..]).1[k] != Some(EndFailed)
      {
        assert ops[1..][k] == ops[k + 1] && results[k + 1] == results[1..][k];
      }
      RunRefines(b, IdealStep(i, ops[0], res), defConf, ops[1..]);
    }
  }
}
