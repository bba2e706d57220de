/** `AsyncClient`: the asynchronous Redis client on top of hiredis. The calls of hiredis are methods;
    what it promises about them is their precondition. Reply callbacks do not call back into the
    client. */
module RedisClients {
  import opened Common

  datatype Status = NOT_INIT | INIT_ERROR | CONNECTING | CONNECTED | WORKING | COMPLETED

  /** What a command callback is given. */
  datatype Answer = Value(text: string) | Error(text: string) | Nothing

  /** A command callback that ran. Callbacks are numbered in the order they are registered. */
  datatype Run = Run(callback: nat, answer: Answer)

  /** commands_map_: the callback stored under a command id. */
  type Commands = map<uint64, nat>

  /** How `redisAsyncConnectWithOptions` and the setting of its callbacks went. */
  datatype Connection = NoContext | Unusable(c: nat) | Usable(c: nat)

  /** A hiredis reply as `commandCb` reads it: its text, if any, and the error text of the context. */
  datatype Reply = Reply(text: Option<string>, errstr: Option<string>)

  function AnswerOf(r: Reply): Answer {
    if r.text.Some? then Value(r.text.value)
    else if r.errstr.Some? then Error(r.errstr.value)
    else Nothing
  }

  ghost predicate Ran(runs: seq<Run>, callback: nat) {
    exists i :: 0 <= i < |runs| && runs[i].callback == callback
  }

  predicate Differ(runs: seq<Run>, i: nat, j: nat)
    requires i < |runs| && j < |runs|
  {
    runs[i].callback != runs[j].callback
  }

  ghost predicate OnceEach(runs: seq<Run>) {
    forall i, j {:trigger Differ(runs, i, j)} :: 0 <= i < j < |runs| ==> Differ(runs, i, j)
  }

  predicate Given(runs: seq<Run>, n: nat, i: nat)
    requires i < |runs|
  {
    runs[i].callback < n
  }

  predicate Earlier(n: nat, callback: nat) { callback < n }

  /** Ids are handed out in turn and wrap around, so a callback's number gives its id. */
  predicate AtHome(commands: Commands, n: nat, id: uint64)
    requires id in commands
  {
    commands[id] < n && Wrap64(commands[id]) == id
  }

  predicate Stored(commands: Commands, callback: nat) {
    Wrap64(callback) in commands && commands[Wrap64(callback)] == callback
  }

  /** A callback is stored, has run or has been overwritten. */
  ghost predicate OneFate(commands: Commands, lost: set<nat>, runs: seq<Run>, callback: nat) {
    && (Stored(commands, callback) <==> !Ran(runs, callback) && callback !in lost)
    && !(Ran(runs, callback) && callback in lost)
  }

  /** Every one of the `n` callbacks registered so far has one of these fates, and none has run twice. */
  ghost predicate Accounted(commands: Commands, lost: set<nat>, runs: seq<Run>, n: nat) {
    && OnceEach(runs)
    && (forall i {:trigger Given(runs, n, i)} :: 0 <= i < |runs| ==> Given(runs, n, i))
    && (forall k {:trigger Earlier(n, k)} :: k in lost ==> Earlier(n, k))
    && (lost != {} ==> n > TWO_TO_64)
    && (forall id {:trigger AtHome(commands, n, id)} :: id in commands ==> AtHome(commands, n, id))
    && (forall k {:trigger OneFate(commands, lost, runs, k)} :: 0 <= k < n ==> OneFate(commands, lost, runs, k))
  }

  lemma RunAppend(runs: seq<Run>, r: Run, callback: nat)
    ensures Ran(runs + [r], callback) <==> Ran(runs, callback) || r.callback == callback
  {
    var all := runs + [r];
    assert all[|runs|] == r;
    if Ran(runs, callback) {
      var i :| 0 <= i < |runs| && runs[i].callback == callback;
      assert all[i].callback == callback;
    }
  }

  /** Running a stored callback and forgetting it. */
  lemma AccountedRun(commands: Commands, lost: set<nat>, runs: seq<Run>, n: nat, id: uint64, answer: Answer)
    requires Accounted(commands, lost, runs, n) && id in commands
    ensures Stored(commands, commands[id])
    ensures Accounted(commands - {id}, lost, runs + [Run(commands[id], answer)], n)
  {
    var r, rest := Run(commands[id], answer), commands - {id};
    var all := runs + [r];
    assert AtHome(commands, n, id);
    assert OneFate(commands, lost, runs, r.callback) && !Ran(runs, r.callback);
    forall k | 0 <= k < n ensures OneFate(rest, lost, all, k) {
      assert OneFate(commands, lost, runs, k);
      RunAppend(runs, r, k);
    }
    forall i, j | 0 <= i < j < |all| ensures Differ(all, i, j) {
      if j < |runs| { assert Differ(runs, i, j); }
    }
    forall i | 0 <= i < |all| ensures Given(all, n, i) {
      if i < |runs| { assert Given(runs, n, i); }
    }
    forall other | other in rest ensures AtHome(rest, n, other) {
      assert AtHome(commands, n, other);
    }
  }

  /** Registering one more callback. It overwrites another exactly when its id is still in use, which takes
      2^64 registrations. */
  lemma AccountedGet(commands: Commands, lost: set<nat>, runs: seq<Run>, n: nat)
    requires Accounted(commands, lost, runs, n)
    ensures Accounted(commands[Wrap64(n) := n], Overwritten(commands, lost, Wrap64(n)), runs, n + 1)
    ensures Wrap64(n) in commands ==> n >= TWO_TO_64 && commands[Wrap64(n)] !in lost
    ensures !Ran(runs, n)
  {
    var id := Wrap64(n);
    var now, gone := commands[id := n], Overwritten(commands, lost, id);
    if id in commands {
      assert AtHome(commands, n, id);
      assert OneFate(commands, lost, runs, commands[id]);
    }
    forall i | 0 <= i < |runs| ensures runs[i].callback != n {
      assert Given(runs, n, i);
    }
    var m := n + 1;
    forall i | 0 <= i < |runs| ensures Given(runs, m, i) {
      assert Given(runs, n, i);
    }
    forall k | k in gone ensures Earlier(m, k) {
      assert k in lost ==> Earlier(n, k);
    }
    assert n in lost ==> Earlier(n, n);
    forall k | 0 <= k < m ensures OneFate(now, gone, runs, k) {
      if k < n { assert OneFate(commands, lost, runs, k); }
    }
    forall other | other in now ensures AtHome(now, m, other) {
      if other != id { assert AtHome(commands, n, other); }
    }
  }

  /** What is lost once a new callback is stored under `id`. */
  function Overwritten(commands: Commands, lost: set<nat>, id: uint64): set<nat> {
    if id in commands then lost + {commands[id]} else lost
  }

  predicate Backed(commands: Commands, accepted: set<nat>, rejected: set<nat>, id: uint64)
    requires id in commands
  {
    commands[id] in accepted || commands[id] in rejected
  }

  /** What is stored is queued at hiredis or was refused by it; what is queued is stored, unless callbacks
      have been overwritten. */
  ghost predicate Queued(commands: Commands, accepted: set<nat>, rejected: set<nat>, lost: set<nat>) {
    && (forall id {:trigger Backed(commands, accepted, rejected, id)} ::
          id in commands ==> Backed(commands, accepted, rejected, id))
    && (lost == {} ==>
          forall k {:trigger Stored(commands, k)} :: k in accepted ==> Stored(commands, k))
  }

  lemma QueuedAnswer(commands: Commands, accepted: set<nat>, rejected: set<nat>, lost: set<nat>, runs: seq<Run>,
                     n: nat, command: nat)
    requires Queued(commands, accepted, rejected, lost) && Accounted(commands, lost, runs, n)
    requires command in accepted
    ensures Queued(commands - {Wrap64(command)}, accepted - {command}, rejected, lost)
    ensures lost == {} ==> Stored(commands, command)
  {
    var rest, left := commands - {Wrap64(command)}, accepted - {command};
    forall other | other in rest ensures Backed(rest, left, rejected, other) {
      assert Backed(commands, accepted, rejected, other) && AtHome(commands, n, other);
    }
    forall k | k in left && lost == {} ensures Stored(rest, k) {
      assert Stored(commands, k) && Stored(commands, command);
    }
  }

  lemma QueuedGet(commands: Commands, accepted: set<nat>, rejected: set<nat>, lost: set<nat>, n: nat, queued: bool)
    requires Queued(commands, accepted, rejected, lost)
    requires Wrap64(n) in commands ==> commands[Wrap64(n)] !in lost
    ensures Queued(commands[Wrap64(n) := n],
                   if queued then accepted + {n} else accepted,
                   if queued then rejected else rejected + {n},
                   Overwritten(commands, lost, Wrap64(n)))
  {
    var id := Wrap64(n);
    var now, gone := commands[id := n], Overwritten(commands, lost, id);
    var all := if queued then accepted + {n} else accepted;
    var refused := if queued then rejected else rejected + {n};
    forall other | other in now ensures Backed(now, all, refused, other) {
      if other != id { assert Backed(commands, accepted, rejected, other); }
    }
    if gone == {} {
      forall k | k in all ensures Stored(now, k) {
        if k in accepted { assert Stored(commands, k); }
      }
    }
  }

  predicate Refused(commands: Commands, rejected: set<nat>, id: uint64) {
    id in commands && commands[id] in rejected
  }

  /** A callback hiredis will never ask for is still stored. */
  ghost predicate RefusedLeft(commands: Commands, rejected: set<nat>) {
    exists id {:trigger Refused(commands, rejected, id)} :: Refused(commands, rejected, id)
  }

  /** What an answer under `id` makes run. */
  function Answered(commands: Commands, runs: seq<Run>, id: uint64, answer: Answer): seq<Run> {
    if id in commands then runs + [Run(commands[id], answer)] else runs
  }

  /** What ran since `before` was stored and was given nothing. */
  ghost predicate AllRun(commands: Commands, before: seq<Run>, after: seq<Run>) {
    && |before| <= |after| && after[..|before|] == before
    && (forall i :: |before| <= i < |after| ==> Stored(commands, after[i].callback) && after[i].answer == Nothing)
    && (commands == map[] ==> after == before)
  }

  class AsyncClient {
    const password: bool
    const maxReconnect: uint32

    var status: Status
    var nextCommandId: uint64
    var commands: Commands
    /** How many callbacks have been registered. */
    var registered: nat
    var shouldReconnect: bool
    var tryReconnecting: bool
    var reconnectCount: uint32
    /** A reconnect timer is set. */
    var timer: bool
    /** redis_async_context_ */
    var context: Option<nat>
    /** The contexts whose `data` points to this client. */
    var attached: set<nat>

    // What hiredis knows about the current context, and whether the timer has still to fire.
    var armed: bool
    var connecting: bool
    var authenticating: bool
    /** The commands it has queued and not answered, by the numbers of their callbacks. */
    var accepted: set<nat>

    ghost var runs: seq<Run>
    /** Callbacks of commands hiredis refused to queue. */
    ghost var rejected: set<nat>
    /** Callbacks overwritten by another one under the same id. */
    ghost var lost: set<nat>
    ghost var destroyed: bool

    ghost predicate Valid()
      reads this
    {
      Books() && Linked() && Timed()
    }

    /** What is known about the callbacks. */
    ghost predicate Books()
      reads this`commands, this`lost, this`runs, this`registered, this`nextCommandId, this`accepted, this`rejected
    {
      Registered() && Queued(commands, accepted, rejected, lost)
    }

    ghost predicate Registered()
      reads this`commands, this`lost, this`runs, this`registered, this`nextCommandId
    {
      Accounted(commands, lost, runs, registered) && nextCommandId == Wrap64(registered)
    }

    /** Nothing is connected and no timer will try again. */
    ghost predicate Dead()
      reads this`context, this`armed
    {
      context.None? && !armed
    }

    /** Connected, but without an AUTH command that could be answered. */
    ghost predicate Stuck()
      reads this`status, this`authenticating
    {
      status == CONNECTED && !authenticating
    }

    /** A client is dead exactly with the two statuses that end an attempt for good; a retry that is still
        wanted is then lost only by INIT_ERROR. */
    ghost predicate Timed()
      reads this`armed, this`context, this`status, this`tryReconnecting, this`shouldReconnect, this`destroyed
    {
      && (armed ==> context.None? && status == CONNECTING && tryReconnecting && shouldReconnect)
      && (Dead() <==> status == INIT_ERROR || status == COMPLETED)
      && (status == COMPLETED && !destroyed ==> !shouldReconnect)
    }

    ghost predicate Linked()
      reads this`context, this`attached, this`accepted, this`status
      reads this`connecting, this`authenticating, this`tryReconnecting
    {
      && (context.None? ==> attached == {})
      && (context.Some? ==> attached == {context.value})
      && (accepted != {} ==> status == WORKING)
      && (status == WORKING || connecting || authenticating ==> context.Some?)
      && (connecting ==> status == NOT_INIT || status == CONNECTING)
      && (authenticating ==> status == CONNECTED)
      && (context.Some? && !connecting ==> !tryReconnecting)
    }

    /** "A nonempty command map means a working client with a live context" holds exactly while the client
        works or the map holds no command that hiredis refused. */
    lemma NonEmptyMeansWorking()
      requires Valid()
      ensures (commands != map[] ==> status == WORKING && context.Some?)
         <==> status == WORKING || !RefusedLeft(commands, rejected)
    {
      if status != WORKING && commands != map[] {
        var id :| id in commands;
        assert Backed(commands, accepted, rejected, id) && id !in accepted;
        assert Refused(commands, rejected, id);
      }
    }

    constructor (password: bool, reconnect: bool, maxReconnect: uint32, connection: Connection)
      ensures Valid() && registered == 0 && commands == map[] && runs == []
      ensures accepted == {} && rejected == {} && lost == {}
      ensures this.password == password && this.maxReconnect == maxReconnect
      ensures shouldReconnect == reconnect && reconnectCount == 0
      ensures connection.Usable? ==> context == Some(connection.c) && connecting && status == NOT_INIT
      ensures !connection.Usable? ==> context.None? && status == INIT_ERROR
      ensures !armed && !destroyed
    {
      this.password, this.maxReconnect := password, maxReconnect;
      status, nextCommandId, commands, registered := NOT_INIT, 0, map[], 0;
      shouldReconnect, tryReconnecting, reconnectCount, timer := reconnect, false, 0, false;
      context, attached, armed, connecting, authenticating := None, {}, false, false, false;
      accepted, runs, rejected, lost, destroyed := {}, [], {}, {}, false;
      new;
      assert Accounted(commands, lost, runs, 0);
      Connect(connection);
    }

    method Connect(connection: Connection)
      requires Books() && Linked()
      requires Dead() && (status == NOT_INIT || status == CONNECTING)
      modifies this`status, this`commands, this`context, this`attached
      modifies this`connecting, this`authenticating, this`accepted, this`runs
      ensures Valid()
      ensures old(commands) == map[] ==> runs == old(runs)
      ensures connection.Usable? ==>
        && context == Some(connection.c) && connecting && status == old(status)
        && commands == old(commands) && runs == old(runs) && accepted == old(accepted)
      ensures !connection.Usable? ==> context.None? && status == INIT_ERROR && commands == map[]
    {
      if connection.NoContext? {
        ResetAsyncContext(INIT_ERROR);
        return;
      }
      context := Some(connection.c);
      attached := attached + {connection.c};
      if connection.Unusable? {
        ResetAsyncContext(INIT_ERROR);
        return;
      }
      connecting, authenticating := true, false;
    }

    /** Detaches and frees the context, then runs every callback that is left. While hiredis frees the
        context it answers what is pending, but to no client. */
    method ResetAsyncContext(newStatus: Status)
      requires Registered()
      requires context.None? ==> attached == {}
      requires context.Some? ==> attached == {context.value}
      requires newStatus == INIT_ERROR || newStatus == COMPLETED
      modifies this`status, this`commands, this`context, this`attached
      modifies this`connecting, this`authenticating, this`accepted, this`runs
      ensures Books() && Linked()
      ensures status == newStatus && context.None? && commands == map[]
      ensures !connecting && !authenticating && accepted == {}
      ensures AllRun(old(commands), old(runs), runs)
    {
      status := newStatus;
      if context.Some? {
        attached := attached - {context.value};
        context := None;
      }
      assert attached == {};
      connecting, authenticating, accepted := false, false, {};
      RunRemaining();
    }

    /** Every callback still stored runs with nothing, in any order; then the map is cleared. */
    method RunRemaining()
      requires Registered()
      modifies this`commands, this`runs
      ensures commands == map[] && Registered()
      ensures AllRun(old(commands), old(runs), runs)
    {
      var rest := commands;
      while rest != map[]
        invariant forall id :: id in rest ==> id in commands && rest[id] == commands[id]
        invariant Accounted(rest, lost, runs, registered)
        invariant commands == old(commands) && AllRun(commands, old(runs), runs)
        decreases rest.Keys
      {
        var id :| id in rest;
        AccountedRun(rest, lost, runs, registered, id, Nothing);
        runs := runs + [Run(rest[id], Nothing)];
        rest := rest - {id};
      }
      commands := map[];
    }

    method WaitingToReconnect()
      modifies this`shouldReconnect, this`reconnectCount, this`tryReconnecting, this`timer, this`armed, this`status
      ensures old(tryReconnecting) ==>
        unchanged(this`shouldReconnect, this`reconnectCount, this`tryReconnecting, this`timer, this`armed, this`status)
      ensures !old(tryReconnecting) ==>
        var retry := old(shouldReconnect) && old(reconnectCount) <= maxReconnect;
        && status == (if retry then CONNECTING else COMPLETED)
        && shouldReconnect == tryReconnecting == retry
        && timer == (old(timer) || retry) && armed == (old(armed) || retry)
        && (old(shouldReconnect) ==> reconnectCount == Wrap32(old(reconnectCount) + 1))
        && (!old(shouldReconnect) ==> reconnectCount == old(reconnectCount))
    {
      if tryReconnecting {
        return;
      }
      var tooMany := false;
      if shouldReconnect {
        tooMany := reconnectCount > maxReconnect;
        reconnectCount := Wrap32(reconnectCount + 1);
      }
      if !shouldReconnect || tooMany {
        shouldReconnect := false;
        status := COMPLETED;
        return;
      }
      tryReconnecting := true;
      timer, armed := true, true;
      status := CONNECTING;
    }

    /** A timer for one more attempt while retries are wanted and left, the end otherwise. */
    ghost predicate Retried(wanted: bool, count: uint32)
      reads this
    {
      && armed == tryReconnecting == shouldReconnect == (wanted && count <= maxReconnect)
      && (armed ==> timer && status == CONNECTING)
      && (!armed ==> status == COMPLETED)
      && (wanted ==> reconnectCount == Wrap32(count + 1))
      && (!wanted ==> reconnectCount == count)
    }

    /** hiredis lets the context go after telling the client: reconnect later, or give up. */
    method LoseContext()
      requires Valid() && context.Some? && accepted == {} && !authenticating && !tryReconnecting
      modifies this`status, this`attached, this`context, this`connecting
      modifies this`shouldReconnect, this`reconnectCount, this`tryReconnecting, this`timer, this`armed
      ensures Valid() && context.None? && !connecting
      ensures Retried(old(shouldReconnect), old(reconnectCount))
    {
      Detach();
      WaitingToReconnect();
    }

    method Detach()
      requires Linked() && context.Some? && accepted == {} && !authenticating
      modifies this`status, this`attached, this`context, this`connecting
      ensures Linked() && context.None? && attached == {} && !connecting && status == NOT_INIT
    {
      status := NOT_INIT;
      attached := attached - {context.value};
      assert attached == {};
      context := None;
      connecting := false;
    }

    /** hiredis reports the outcome of connecting once per context, before anything is queued on it.
        `queued` says whether it takes the AUTH command. */
    method ConnectCb(c: nat, ok: bool, queued: bool)
      requires Valid() && (c in attached ==> connecting)
      modifies this`status, this`attached, this`context, this`connecting, this`authenticating
      modifies this`shouldReconnect, this`reconnectCount, this`tryReconnecting, this`timer, this`armed
      ensures Valid()
      ensures c !in old(attached) ==> unchanged(this)
      ensures c in old(attached) && ok ==>
        && context == Some(c) && !connecting && authenticating == (password && queued)
        && status == (if password then CONNECTED else WORKING)
        && reconnectCount == (if old(tryReconnecting) then 0 else old(reconnectCount))
        && !tryReconnecting && shouldReconnect == old(shouldReconnect) && timer == (old(timer) && !old(tryReconnecting))
      ensures c in old(attached) && !ok ==>
        context.None? && !connecting && Retried(old(shouldReconnect), old(reconnectCount))
    {
      if c !in attached {
        return;
      }
      if tryReconnecting {
        reconnectCount := if ok then 0 else reconnectCount;
        tryReconnecting := false;
        timer := false;
      }
      if ok {
        Establish(queued);
      } else {
        LoseContext();
      }
    }

    /** The connection is there: authenticate first, if there is a password. An AUTH command that hiredis
        refuses is never answered. */
    method Establish(queued: bool)
      requires Valid() && connecting && !tryReconnecting
      modifies this`connecting, this`authenticating, this`status
      ensures Valid() && !connecting && authenticating == (password && queued)
      ensures status == if password then CONNECTED else WORKING
    {
      connecting := false;
      status := CONNECTED;
      if password {
        authenticating := queued;
      } else {
        status := WORKING;
      }
    }

    method AuthenticateCb(c: nat, ok: bool)
      requires Valid() && (c in attached ==> authenticating)
      modifies this`status, this`shouldReconnect, this`commands, this`context, this`attached
      modifies this`connecting, this`authenticating, this`accepted, this`runs
      ensures Valid()
      ensures c !in old(attached) ==> unchanged(this)
      ensures c in old(attached) && ok ==>
        && status == WORKING && !authenticating
        && context == old(context) && commands == old(commands) && runs == old(runs)
      ensures c in old(attached) && !ok ==>
        status == COMPLETED && !shouldReconnect && context.None? && commands == map[]
    {
      if c !in attached {
        return;
      }
      if ok {
        authenticating := false;
        status := WORKING;
      } else {
        shouldReconnect := false;
        ResetAsyncContext(COMPLETED);
      }
    }

    /** hiredis reports a disconnect only of a context that was connected; it answers everything pending
        before a passive one, and an active one concerns a context the client has given up. Callbacks are
        stranded exactly when a refused command is still in the map. */
    method DisconnectCb(c: nat, ok: bool)
      requires Valid() && (c in attached ==> !ok && !connecting && accepted == {} && !authenticating)
      modifies this`status, this`attached, this`context, this`connecting, this`shouldReconnect
      modifies this`reconnectCount, this`tryReconnecting, this`timer, this`armed
      ensures Valid()
      ensures c !in old(attached) ==> unchanged(this)
      ensures c in old(attached) ==> context.None? && Retried(old(shouldReconnect), old(reconnectCount))
      ensures c in old(attached) ==> status != WORKING && commands == old(commands)
      ensures c in old(attached) ==> (commands != map[] <==> old(RefusedLeft(commands, rejected)))
    {
      if ok || c !in attached {
        return;
      }
      LoseContext();
      NonEmptyMeansWorking();
    }

    /** hiredis answers an accepted command of a context, at most once, with the id it was queued with. Only
        where callbacks have been overwritten can the answer find another callback, or none. */
    method CommandCb(c: nat, command: nat, reply: Reply)
      requires Valid() && (c in attached ==> command in accepted)
      modifies this`commands, this`accepted, this`runs
      ensures Valid()
      ensures c !in old(attached) ==> unchanged(this)
      ensures c in old(attached) ==>
        && commands == old(commands) - {Wrap64(command)} && accepted == old(accepted) - {command}
        && runs == Answered(old(commands), old(runs), Wrap64(command), AnswerOf(reply))
        && (Wrap64(command) !in old(commands) ==> runs == old(runs))
        && (Wrap64(command) in old(commands) ==>
              && |runs| == |old(runs)| + 1 && runs[|old(runs)|].callback == old(commands)[Wrap64(command)]
              && (reply.text.Some? ==> runs[|old(runs)|].answer == Value(reply.text.value))
              && (reply.text.None? && reply.errstr.Some? ==> runs[|old(runs)|].answer == Error(reply.errstr.value))
              && (reply.text.None? && reply.errstr.None? ==> runs[|old(runs)|].answer == Nothing))
        && (lost == {} ==> Stored(old(commands), command))
    {
      if c !in attached {
        return;
      }
      QueuedAnswer(commands, accepted, rejected, lost, runs, registered, command);
      accepted := accepted - {command};
      var id := Wrap64(command);
      if id !in commands {
        assert commands - {id} == commands;
        return;
      }
      var callback := commands[id];
      AccountedRun(commands, lost, runs, registered, id, AnswerOf(reply));
      if reply.text.Some? {
        runs := runs + [Run(callback, Value(reply.text.value))];
      } else if reply.errstr.Some? {
        runs := runs + [Run(callback, Error(reply.errstr.value))];
      } else {
        runs := runs + [Run(callback, Nothing)];
      }
      commands := commands - {id};
    }

    /** A working client registers the callback under the next id; any other drops it. `queued` says
        whether hiredis took the command. A callback still stored under that id is lost. */
    method Get(queued: bool) returns (given: Option<uint64>)
      requires Valid()
      modifies this`nextCommandId, this`registered, this`commands, this`accepted, this`rejected, this`lost
      ensures Valid()
      ensures given.Some? <==> status == WORKING && context.Some?
      ensures given.None? ==> unchanged(this)
      ensures given.Some? ==>
        && given.value == old(nextCommandId) && registered == old(registered) + 1
        && commands == old(commands)[given.value := old(registered)] && !Ran(runs, old(registered))
        && accepted == (if queued then old(accepted) + {old(registered)} else old(accepted))
        && rejected == (if queued then old(rejected) else old(rejected) + {old(registered)})
        && lost == Overwritten(old(commands), old(lost), given.value)
      ensures given.Some? && given.value in old(commands) ==>
        old(registered) >= TWO_TO_64 && old(commands)[given.value] !in old(lost)
    {
      if status != WORKING || context.None? {
        return None;
      }
      var id := Register(queued);
      return Some(id);
    }

    method Register(queued: bool) returns (id: uint64)
      requires Books()
      modifies this`nextCommandId, this`registered, this`commands, this`accepted, this`rejected, this`lost
      ensures Books() && id == old(nextCommandId) && registered == old(registered) + 1
      ensures commands == old(commands)[id := old(registered)] && !Ran(runs, old(registered))
      ensures queued ==> accepted == old(accepted) + {old(registered)} && rejected == old(rejected)
      ensures !queued ==> accepted == old(accepted) && rejected == old(rejected) + {old(registered)}
      ensures lost == Overwritten(old(commands), old(lost), id)
      ensures id in old(commands) ==> old(registered) >= TWO_TO_64 && old(commands)[id] !in old(lost)
    {
      AccountedGet(commands, lost, runs, registered);
      QueuedGet(commands, accepted, rejected, lost, registered, queued);
      WrapTwice(registered, 1);
      id := nextCommandId;
      nextCommandId := Wrap64(nextCommandId + 1);
      lost := Overwritten(commands, lost, id);
      commands := commands[id := registered];
      if queued {
        accepted := accepted + {registered};
      } else {
        rejected := rejected + {registered};
      }
      registered := registered + 1;
    }

    /** The reconnect timer fires, once. Without a usable context the client is dead, though it is still
        marked as reconnecting. */
    method ReconnectCb(connection: Connection)
      requires Valid() && armed
      modifies this`armed, this`status, this`commands, this`context, this`attached
      modifies this`connecting, this`authenticating, this`accepted, this`runs
      ensures Valid() && !armed && tryReconnecting && shouldReconnect
      ensures connection.Usable? ==> context == Some(connection.c) && connecting && status == CONNECTING
      ensures !connection.Usable? ==> Dead() && status == INIT_ERROR && commands == map[]
    {
      armed := false;
      Connect(connection);
    }

    /** The destructor: every callback ever registered has run exactly once, unless it was overwritten. */
    method Destroy()
      requires Valid()
      modifies this`status, this`commands, this`context, this`attached, this`connecting, this`authenticating
      modifies this`accepted, this`runs, this`timer, this`armed, this`tryReconnecting, this`destroyed
      ensures Valid() && commands == map[] && context.None? && status == COMPLETED
      ensures !timer && !tryReconnecting
      ensures forall k :: 0 <= k < registered ==> (Ran(runs, k) <==> k !in lost)
    {
      ResetAsyncContext(COMPLETED);
      AllDone();
      timer, armed, tryReconnecting, destroyed := false, false, false, true;
    }

    lemma AllDone()
      requires Registered() && commands == map[]
      ensures forall k :: 0 <= k < registered ==> (Ran(runs, k) <==> k !in lost)
    {
      forall k | 0 <= k < registered ensures Ran(runs, k) <==> k !in lost {
        assert OneFate(commands, lost, runs, k);
      }
    }

    /** What can be seen of the client. */
    ghost function View(): Snapshot
      reads this
    {
      Snapshot(Dead(), armed, shouldReconnect, status == WORKING, Stuck(), commands, registered, rejected, lost, runs)
    }
  }

  datatype Snapshot = Snapshot(
    dead: bool, armed: bool, wanting: bool, working: bool, stuck: bool,
    commands: Commands, registered: nat, rejected: set<nat>, lost: set<nat>, runs: seq<Run>)
  {
    /** What `NonEmptyMeansWorking` says of a state. */
    ghost predicate WorkingExactly() {
      (commands != map[] ==> working) <==> (working || !RefusedLeft(commands, rejected))
    }
  }

  /** Everything that can happen to a client. */
  datatype Call =
    | Connected(c: nat, ok: bool, queued: bool)
    | Authenticated(c: nat, ok: bool)
    | Disconnected(c: nat, ok: bool)
    | Replied(c: nat, command: nat, reply: Reply)
    | Command(queued: bool)
    | TimerFired(connection: Connection)

  /** The timer fires on a client that gets no usable context. */
  predicate FailedAttempt(call: Call) {
    call.TimerFired? && !call.connection.Usable?
  }

  /** A dead client never changes again: it neither works, nor registers, nor runs anything. */
  ghost predicate DeadStaysDead(trace: seq<Snapshot>) {
    forall i, j :: 0 <= i <= j < |trace| && trace[i].dead ==> trace[j] == trace[i]
  }

  /** A wanted retry is lost exactly in a failed attempt, the first or a later one; nothing is refused but
      a command hiredis does not take; a callback is overwritten exactly by a command under its id. A client
      whose AUTH command was refused stays as it is until it is disconnected. */
  ghost predicate Caused(first: Connection, calls: seq<Call>, trace: seq<Snapshot>)
    requires 0 < |trace| <= |calls| + 1
  {
    && (trace[0].dead <==> !first.Usable?) && trace[0].rejected == {} && trace[0].lost == {}
    && forall i :: 0 <= i < |trace| - 1 ==> CausedBy(calls[i], trace[i], trace[i + 1])
  }

  ghost predicate CausedBy(call: Call, before: Snapshot, after: Snapshot) {
    && (!before.dead && after.dead && after.wanting <==> before.armed && FailedAttempt(call))
    && (after.stuck && !before.stuck ==> call.Connected? && call.ok && !call.queued)
    && (before.stuck && !call.Disconnected? ==> after == before)
    && (after.rejected != before.rejected ==> call == Command(false) && before.working)
    && (after.lost != before.lost <==>
          call.Command? && before.working && Wrap64(before.registered) in before.commands)
  }

  lemma ExtendTrace(trace: seq<Snapshot>, next: Snapshot)
    requires trace != [] && DeadStaysDead(trace)
    requires trace[|trace| - 1].dead ==> next == trace[|trace| - 1]
    ensures DeadStaysDead(trace + [next])
  {
    var last := |trace| - 1;
    forall i | 0 <= i <= last && trace[i].dead ensures next == trace[i] {
      assert trace[last] == trace[i];
    }
  }

  /** One call, if hiredis can make it now. */
  method Perform(client: AsyncClient, call: Call)
    requires client.Valid() && !client.destroyed
    modifies client
    ensures client.Valid() && !client.destroyed
    ensures old(client.Dead()) ==> unchanged(client)
    ensures CausedBy(call, old(client.View()), client.View())
  {
    match call
    case Connected(c, ok, queued) => PerformConnected(client, c, ok, queued);
    case Authenticated(c, ok) =>
      if c in client.attached ==> client.authenticating { client.AuthenticateCb(c, ok); }
    case Disconnected(c, ok) =>
      if c in client.attached ==> !ok && !client.connecting && client.accepted == {} && !client.authenticating {
        client.DisconnectCb(c, ok);
      }
    case Replied(c, command, reply) =>
      if c in client.attached ==> command in client.accepted { client.CommandCb(c, command, reply); }
    case Command(queued) => PerformCommand(client, queued);
    case TimerFired(connection) =>
      if client.armed { client.ReconnectCb(connection); }
  }

  method PerformConnected(client: AsyncClient, c: nat, ok: bool, queued: bool)
    requires client.Valid() && !client.destroyed
    modifies client
    ensures client.Valid() && !client.destroyed
    ensures old(client.Dead()) ==> unchanged(client)
    ensures CausedBy(Connected(c, ok, queued), old(client.View()), client.View())
  {
    if c in client.attached ==> client.connecting {
      client.ConnectCb(c, ok, queued);
    }
  }

  method PerformCommand(client: AsyncClient, queued: bool)
    requires client.Valid() && !client.destroyed
    modifies client
    ensures client.Valid() && !client.destroyed
    ensures old(client.Dead()) ==> unchanged(client)
    ensures CausedBy(Command(queued), old(client.View()), client.View())
  {
    var given := client.Get(queued);
  }

  /** Over every run that ends in destruction, no callback ran twice and each registered callback ran,
      except those overwritten under a reused id; that takes more than 2^64 of them. On the way, a nonempty
      map means a working client exactly while the client works or no refused command is left in it, and a
      client that is dead, wanted or not, stays as it is. */
  method Lifetime(password: bool, reconnect: bool, maxReconnect: uint32, first: Connection, calls: seq<Call>)
    returns (client: AsyncClient, ghost trace: seq<Snapshot>)
    ensures OnceEach(client.runs)
    ensures forall k :: 0 <= k < client.registered ==> (Ran(client.runs, k) <==> k !in client.lost)
    ensures forall i :: 0 <= i < |client.runs| ==> client.runs[i].callback < client.registered
    ensures client.registered <= TWO_TO_64 ==> client.lost == {}
    ensures |trace| == |calls| + 1
    ensures trace[|calls|].registered == client.registered && trace[|calls|].lost == client.lost
    ensures DeadStaysDead(trace) && Caused(first, calls, trace)
    ensures forall i :: 0 <= i < |trace| ==> trace[i].WorkingExactly()
  {
    client := new AsyncClient(password, reconnect, maxReconnect, first);
    client.NonEmptyMeansWorking();
    trace := [client.View()];
    for i := 0 to |calls|
      invariant fresh(client) && client.Valid() && !client.destroyed
      invariant |trace| == i + 1 && trace[i] == client.View()
      invariant DeadStaysDead(trace) && Caused(first, calls, trace)
      invariant forall k :: 0 <= k < |trace| ==> trace[k].WorkingExactly()
    {
      Perform(client, calls[i]);
      client.NonEmptyMeansWorking();
      ExtendTrace(trace, client.View());
      trace := trace + [client.View()];
    }
    client.Destroy();
    forall i | 0 <= i < |client.runs| ensures client.runs[i].callback < client.registered {
      assert Given(client.runs, client.registered, i);
    }
  }

  /** A command hiredis refused outlives the connection in the map: a nonempty map, no working client. */
  method RefusedCommandExample() returns (client: AsyncClient)
    ensures client.Valid() && client.commands == map[0 := 0] && client.status != WORKING && client.context.None?
  {
    client := new AsyncClient(false, true, 10, Usable(1));
    client.ConnectCb(1, true, true);
    var registered := client.Get(false);
    assert client.accepted == {};
    client.DisconnectCb(1, false);
  }

  /** The first command is still unanswered, the other `n - 1` have been answered. */
  ghost predicate OnlyFirstWaits(client: AsyncClient, n: nat)
    reads client
  {
    && client.Valid() && client.status == WORKING && client.context == Some(1)
    && client.registered == n && client.lost == {} && client.commands == map[0 := 0] && client.accepted == {0}
  }

  method AnswerAtOnce(client: AsyncClient)
    requires 0 < client.registered < TWO_TO_64 && OnlyFirstWaits(client, client.registered)
    modifies client
    ensures OnlyFirstWaits(client, old(client.registered) + 1)
  {
    var command := client.registered;
    var id := client.Get(true);
    assert id == Some(command) && command !in map[0 := 0];
    client.CommandCb(1, command, Reply(None, None));
    assert client.accepted == {0};
    assert client.commands == map[0 := 0];
  }

  /** One command is never answered while all later ones are. The first of them to get its id again takes
      its place, and its callback never runs. */
  method OverwrittenExample() returns (client: AsyncClient)
    ensures client.Valid() && client.lost == {0} && client.registered == TWO_TO_64 + 1
  {
    client := new AsyncClient(false, true, 10, Usable(1));
    client.ConnectCb(1, true, true);
    var first := client.Get(true);
    for i := 1 to TWO_TO_64
      invariant fresh(client) && OnlyFirstWaits(client, i)
    {
      AnswerAtOnce(client);
    }
    var again := client.Get(true);
  }

  /** A client that should reconnect and is marked as doing so, but never will. */
  method LostRetryExample() returns (client: AsyncClient)
    ensures client.Valid() && client.Dead() && client.shouldReconnect && client.tryReconnecting
  {
    client := new AsyncClient(false, true, 10, Usable(1));
    client.ConnectCb(1, false, true);
    client.ReconnectCb(NoContext);
  }
}
