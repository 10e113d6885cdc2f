/**
 * The session registry as a value: what the user manager's operations do to users, to the pool's
 * queue of free slots and to the two indexes (UserManager.cpp, User.cpp, ObjectPool.h).
 */
module Registry {
  import opened Text
  import opened ObjectPool

  datatype UserState = NoState | Login | Lobby | Room

  /** `OutsidePool` is no code of the source, which then uses a slot that does not exist. */
  datatype ErrorCode =
    | NoError
    | IdDuplication
    | RemoveInvalidSession
    | InvalidSessionIndex
    | NotConfirmUser
    | OutsidePool

  /** The fields of a user object. */
  datatype UserView = UserView(idx: int, session: int, id: string, confirmed: bool, state: UserState,
                               lobby: int, room: int)

  /**
   * Users by slot, the queue of free slots, slot by session, and slot by id. Ids are keyed by the
   * address of the text, as in the source.
   */
  datatype Registry = Registry(users: seq<UserView>, free: seq<int>, sessions: map<int, int>, ids: map<nat, int>)

  /** The conversion of a slot number to the 16 bits a user keeps of it. */
  function ToShort(i: int): int
  {
    (i + 0x8000) % 0x1_0000 - 0x8000
  }

  const MAX_SHORT: int := 0x7fff

  // ---------- User ----------

  function Initialised(u: UserView, slot: int): UserView
  {
    u.(idx := ToShort(slot))
  }

  function Set(u: UserView, session: int, id: string): UserView
  {
    u.(confirmed := true, state := Login, session := session, id := id)
  }

  // ---------- the operations ----------

  /** `address` is where the id's text is, `copy` where a removal's local copy of it is. */
  datatype Op =
    | Add(session: int, address: nat, id: string)
    | Remove(session: int, copy: nat)
    | EnterLobby(session: int, lobby: int)
    | LeaveLobby(session: int)
    | EnterRoom(session: int, lobby: int, room: int)

  function GetUser(r: Registry, session: int): ErrorCode
  {
    if session !in r.sessions then InvalidSessionIndex
    else if 0 <= r.sessions[session] < |r.users| && r.users[r.sessions[session]].confirmed then NoError
    else NotConfirmUser
  }

  /** Changes the user of a session through the pointer `GetUser` hands out. */
  function Changed(r: Registry, session: int, change: UserView -> UserView): Registry
  {
    if GetUser(r, session) == NoError
    then r.(users := r.users[r.sessions[session] := change(r.users[r.sessions[session]])])
    else r
  }

  function ToLobby(lobby: int): UserView -> UserView
  {
    (u: UserView) => u.(lobby := lobby, state := Lobby)
  }

  function FromLobby(): UserView -> UserView
  {
    (u: UserView) => u.(state := Login)
  }

  function ToRoom(lobby: int, room: int): UserView -> UserView
  {
    (u: UserView) => u.(lobby := lobby, room := room, state := Room)
  }

  /** A session that is registered already keeps its entry, and the slot taken for it is lost. */
  function AddUser(r: Registry, session: int, address: nat, id: string): (Registry, ErrorCode)
  {
    var slot := Front(r.free);
    if address in r.ids then (r, IdDuplication)
    else if !(0 <= slot < |r.users|) then (r.(free := Rest(r.free)), OutsidePool)
    else
      (Registry(
         r.users[slot := Set(Initialised(r.users[slot], slot), session, id)],
         Rest(r.free),
         if session in r.sessions then r.sessions else r.sessions[session := slot],
         r.ids[address := slot]),
       NoError)
  }

  /** Releases the slot number kept in the user, which itself stays as it is. */
  function RemoveUser(r: Registry, session: int, copy: nat): (Registry, ErrorCode)
  {
    if session !in r.sessions || !(0 <= r.sessions[session] < |r.users|) then (r, RemoveInvalidSession)
    else
      (r.(free := r.free + [r.users[r.sessions[session]].idx],
          sessions := r.sessions - {session},
          ids := r.ids - {copy}),
       NoError)
  }

  function Next(r: Registry, op: Op): Registry
  {
    match op
    case Add(session, address, id) => AddUser(r, session, address, id).0
    case Remove(session, copy) => RemoveUser(r, session, copy).0
    case EnterLobby(session, lobby) => Changed(r, session, ToLobby(lobby))
    case LeaveLobby(session) => Changed(r, session, FromLobby())
    case EnterRoom(session, lobby, room) => Changed(r, session, ToRoom(lobby, room))
  }

  function Run(r: Registry, ops: seq<Op>): Registry
    decreases |ops|
  {
    if ops == [] then r else Run(Next(r, ops[0]), ops[1..])
  }

  function Empty(users: seq<UserView>): Registry
  {
    Registry(users, InOrder(|users|), map[], map[])
  }

  /** A login that succeeds. */
  predicate LogsIn(r: Registry, op: Op)
  {
    op.Add? && AddUser(r, op.session, op.address, op.id).1 == NoError
  }

  /** A removal that succeeds. */
  predicate LogsOut(r: Registry, op: Op)
  {
    op.Remove? && RemoveUser(r, op.session, op.copy).1 == NoError
  }

  lemma {:induction false} RunOneMore(r: Registry, ops: seq<Op>, n: nat)
    requires n < |ops|
    ensures Run(r, ops[..n + 1]) == Next(Run(r, ops[..n]), ops[n])
    decreases n
  {
    hide Next;
    if n == 0 {
      assert ops[..1] == [ops[0]] && [ops[0]][1..] == [];
    } else {
      RunOneMore(Next(r, ops[0]), ops[1..], n - 1);
      assert ops[..n + 1][1..] == ops[1..][..n] && ops[..n][1..] == ops[1..][..n - 1];
    }
  }

  // ---------- the invariant ----------

  /** The user of a registered session, in its slot. */
  predicate InPlace(r: Registry, session: int)
    requires session in r.sessions
  {
    var slot := r.sessions[session];
    && 0 <= slot < |r.users|
    && slot !in r.free
    && r.users[slot].session == session
    && r.users[slot].idx == slot
    && r.users[slot].confirmed
  }

  /** Numbers of slots, none twice. */
  ghost predicate Slots(queue: seq<int>, count: nat)
  {
    && (forall i :: 0 <= i < |queue| ==> 0 <= queue[i] < count)
    && (forall i, j :: 0 <= i < j < |queue| ==> queue[i] != queue[j])
  }

  ghost predicate Consistent(r: Registry)
  {
    (forall s :: s in r.sessions ==> InPlace(r, s)) && Slots(r.free, |r.users|)
  }

  /** The 16 bits are those of the slot number; they are the number itself exactly while it is small. */
  lemma ShortExact(slot: nat)
    ensures -0x8000 <= ToShort(slot) <= 0x7fff && (slot - ToShort(slot)) % 0x1_0000 == 0
    ensures ToShort(slot) == slot <==> slot <= MAX_SHORT
  {
  }

  /**
   * A login of a new session keeps the registry consistent exactly when its slot number fits in
   * the 16 bits a user keeps of it; every other login does.
   */
  lemma AddKeepsConsistent(r: Registry, op: Op)
    requires Consistent(r) && op.Add?
    ensures Consistent(Next(r, op)) <==> (LogsIn(r, op) && op.session !in r.sessions ==> r.free[0] <= MAX_SHORT)
  {
    var r' := Next(r, op);
    assert Slots(r'.free, |r'.users|);
    if LogsIn(r, op) {
      ShortExact(r.free[0]);
      forall s | s in r.sessions ensures InPlace(r', s) {
        assert InPlace(r, s);
      }
      if op.session !in r.sessions {
        assert r'.sessions[op.session] == r.free[0];
        assert InPlace(r', op.session) <==> r.free[0] <= MAX_SHORT;
      }
    } else {
      assert r' == r;
    }
  }

  /** Distinct sessions have distinct slots. */
  lemma SessionsApart(r: Registry, s: int, t: int)
    requires Consistent(r) && s in r.sessions && t in r.sessions
    ensures r.sessions[s] == r.sessions[t] <==> s == t
  {
    assert InPlace(r, s) && InPlace(r, t);
  }

  lemma RemoveKeepsConsistent(r: Registry, op: Op)
    requires Consistent(r) && op.Remove?
    ensures Consistent(Next(r, op))
    ensures LogsOut(r, op) <==> op.session in r.sessions
    ensures op.session in r.sessions ==>
              && Next(r, op).free == r.free + [r.sessions[op.session]]
              && Next(r, op).sessions == r.sessions - {op.session}
              && Next(r, op).users == r.users
    ensures op.session !in r.sessions ==> Next(r, op) == r
  {
    if op.session in r.sessions {
      var r' := Next(r, op);
      assert InPlace(r, op.session);
      assert r.sessions[op.session] !in r.free;
      forall s | s in r'.sessions ensures InPlace(r', s) {
        assert InPlace(r, s);
        SessionsApart(r, s, op.session);
      }
    }
  }

  lemma ChangeKeepsConsistent(r: Registry, op: Op)
    requires Consistent(r) && !op.Add? && !op.Remove?
    ensures Consistent(Next(r, op))
  {
    forall s | s in r.sessions ensures InPlace(Next(r, op), s) {
      assert InPlace(r, s);
      if op.session in r.sessions {
        assert InPlace(r, op.session);
      }
    }
  }

  lemma NextKeepsConsistent(r: Registry, op: Op)
    requires Consistent(r) && |r.users| <= MAX_SHORT + 1
    ensures Consistent(Next(r, op)) && |Next(r, op).users| == |r.users|
  {
    match op
    case Add(_, _, _) => AddKeepsConsistent(r, op);
    case Remove(_, _) => RemoveKeepsConsistent(r, op);
    case _ => ChangeKeepsConsistent(r, op);
  }

  /**
   * For every pool of at most 32768 slots and every run, repeated logins and an exhausted pool
   * included: each registered session has a slot that is not free, whose user holds that session
   * and its own slot number and is confirmed; no slot is free twice; and `GetUser` never answers
   * that a user is not confirmed.
   */
  lemma {:induction false} RunKeepsConsistent(r: Registry, ops: seq<Op>, session: int)
    requires Consistent(r) && |r.users| <= MAX_SHORT + 1
    ensures Consistent(Run(r, ops)) && |Run(r, ops).users| == |r.users|
    ensures GetUser(Run(r, ops), session)
            == if session in Run(r, ops).sessions then NoError else InvalidSessionIndex
    decreases |ops|
  {
    if ops == [] {
      if session in r.sessions {
        assert InPlace(r, session);
      }
    } else {
      NextKeepsConsistent(r, ops[0]);
      RunKeepsConsistent(Next(r, ops[0]), ops[1..], session);
    }
  }

  // ---------- the queue ----------

  /** The operation takes a slot out of the queue. */
  predicate Takes(r: Registry, op: Op)
  {
    op.Add? && op.address !in r.ids && r.free != []
  }

  /** The number the operation puts into the queue. */
  function Returned(r: Registry, op: Op): seq<int>
  {
    if LogsOut(r, op) then [r.users[r.sessions[op.session]].idx] else []
  }

  function Taken(r: Registry, ops: seq<Op>): nat
    decreases |ops|
  {
    if ops == [] then 0 else (if Takes(r, ops[0]) then 1 else 0) + Taken(Next(r, ops[0]), ops[1..])
  }

  function GivenBack(r: Registry, ops: seq<Op>): seq<int>
    decreases |ops|
  {
    if ops == [] then [] else Returned(r, ops[0]) + GivenBack(Next(r, ops[0]), ops[1..])
  }

  lemma NextQueue(r: Registry, op: Op)
    ensures Next(r, op).free == r.free[if Takes(r, op) then 1 else 0..] + Returned(r, op)
    ensures Takes(r, op) ==> r.free != []
  {
  }

  lemma DropTwice(a: seq<int>, b: seq<int>, c: seq<int>, m: nat, n: nat)
    requires m <= |a| && n <= |a[m..] + b| + |c|
    ensures ((a[m..] + b) + c)[n..] == (a + (b + c))[m + n..]
  {
    assert (a[m..] + b) + c == (a + (b + c))[m..];
  }

  /** Slots are handed out first in, first out: none overtakes another. */
  lemma {:induction false} SlotsAreFifo(r: Registry, ops: seq<Op>)
    ensures Taken(r, ops) <= |r.free| + |GivenBack(r, ops)|
    ensures Run(r, ops).free == (r.free + GivenBack(r, ops))[Taken(r, ops)..]
    decreases |ops|
  {
    hide Next, Takes, Returned;
    if ops == [] {
      assert r.free + [] == r.free;
    } else {
      var r', op, rest := Next(r, ops[0]), ops[0], ops[1..];
      var m := if Takes(r, op) then 1 else 0;
      NextQueue(r, op);
      SlotsAreFifo(r', rest);
      DropTwice(r.free, Returned(r, op), GivenBack(r', rest), m, Taken(r', rest));
    }
  }

  // ---------- conservation of slots ----------

  /** Logins on a session that is registered already. */
  function Repeats(r: Registry, ops: seq<Op>): nat
    decreases |ops|
  {
    if ops == [] then 0
    else
      (if LogsIn(r, ops[0]) && ops[0].session in r.sessions then 1 else 0) + Repeats(Next(r, ops[0]), ops[1..])
  }

  lemma OneMoreKey<K, V>(m: map<K, V>, k: K, v: V)
    requires k !in m
    ensures |m[k := v]| == |m| + 1
  {
    assert m[k := v].Keys == m.Keys + {k};
    assert |m[k := v].Keys| == |m.Keys| + 1;
  }

  lemma OneKeyLess<K, V>(m: map<K, V>, k: K)
    requires k in m
    ensures |m - {k}| == |m| - 1
  {
    assert (m - {k}).Keys == m.Keys - {k};
    assert |(m - {k}).Keys| == |m.Keys| - 1;
  }

  lemma AddBalance(r: Registry, op: Op)
    requires Consistent(r) && op.Add?
    ensures |Next(r, op).free| + |Next(r, op).sessions| + (if LogsIn(r, op) && op.session in r.sessions then 1 else 0)
            == |r.free| + |r.sessions|
  {
    hide InPlace;
    if LogsIn(r, op) && op.session !in r.sessions {
      OneMoreKey(r.sessions, op.session, r.free[0]);
    }
  }

  lemma RemoveBalance(r: Registry, op: Op)
    requires Consistent(r) && op.Remove?
    ensures |Next(r, op).free| + |Next(r, op).sessions| == |r.free| + |r.sessions|
  {
    RemoveKeepsConsistent(r, op);
    if op.session in r.sessions {
      OneKeyLess(r.sessions, op.session);
    }
  }

  lemma NextBalance(r: Registry, op: Op)
    requires Consistent(r)
    ensures |Next(r, op).free| + |Next(r, op).sessions| + (if LogsIn(r, op) && op.session in r.sessions then 1 else 0)
            == |r.free| + |r.sessions|
  {
    hide InPlace;
    match op
    case Add(_, _, _) => AddBalance(r, op);
    case Remove(_, _) => RemoveBalance(r, op);
    case _ =>
  }

  /** Every repeated login costs one slot for ever; nothing else does. */
  lemma {:induction false} SlotsAreConserved(r: Registry, ops: seq<Op>)
    requires Consistent(r) && |r.users| <= MAX_SHORT + 1
    ensures |Run(r, ops).free| + |Run(r, ops).sessions| + Repeats(r, ops) == |r.free| + |r.sessions|
    decreases |ops|
  {
    hide Next, Consistent, LogsIn;
    if ops == [] {
    } else {
      NextBalance(r, ops[0]);
      NextKeepsConsistent(r, ops[0]);
      SlotsAreConserved(Next(r, ops[0]), ops[1..]);
    }
  }

  lemma EmptyIsConsistent(users: seq<UserView>)
    ensures Consistent(Empty(users)) && |Empty(users).free| == |users|
  {
  }

  /**
   * When the pool runs out: a login whose id is not taken finds no slot exactly when the sessions
   * registered and the logins ever repeated make up the whole pool.
   */
  lemma RunsOutExactly(users: seq<UserView>, ops: seq<Op>, session: int, address: nat, id: string)
    requires |users| <= MAX_SHORT + 1
    ensures var r := Run(Empty(users), ops);
            AddUser(r, session, address, id).1 == OutsidePool
            <==> address !in r.ids && |r.sessions| + Repeats(Empty(users), ops) == |users|
  {
    hide Run, Repeats, InPlace;
    EmptyIsConsistent(users);
    RunKeepsConsistent(Empty(users), ops, session);
    SlotsAreConserved(Empty(users), ops);
  }

  /** The slots of these sessions. */
  function SlotsOf(sessions: map<int, int>, keys: set<int>): set<int>
    requires keys <= sessions.Keys
  {
    set s | s in keys :: sessions[s]
  }

  lemma {:induction false} InjectiveSize(sessions: map<int, int>, keys: set<int>)
    requires keys <= sessions.Keys
    requires forall s, t :: s in keys && t in keys && sessions[s] == sessions[t] ==> s == t
    ensures |SlotsOf(sessions, keys)| == |keys|
    decreases |keys|
  {
    if keys == {} {
      assert SlotsOf(sessions, keys) == {};
    } else {
      var s := PickOne(keys);
      var rest := keys - {s};
      InjectiveSize(sessions, rest);
      assert SlotsOf(sessions, keys) == SlotsOf(sessions, rest) + {sessions[s]};
      assert sessions[s] !in SlotsOf(sessions, rest);
    }
  }

  lemma SubsetOfSameSize(a: set<int>, b: set<int>)
    requires a <= b
    ensures a == b <==> |a| == |b|
  {
    var rest := b - a;
    assert b == a + rest;
    assert |b| == |a| + |rest|;
  }

  /** The slots of a pool. */
  function Range(n: nat): (slots: set<int>)
    ensures |slots| == n && forall i :: i in slots <==> 0 <= i < n
  {
    if n == 0 then {} else Range(n - 1) + {n - 1}
  }

  function Elements(queue: seq<int>): set<int>
  {
    set i | i in queue
  }

  lemma {:induction false} SlotsCounted(queue: seq<int>, count: nat)
    requires Slots(queue, count)
    ensures |Elements(queue)| == |queue| && Elements(queue) <= Range(count)
  {
    if queue == [] {
    } else {
      var rest := queue[1..];
      SlotsCounted(rest, count);
      assert Elements(queue) == Elements(rest) + {queue[0]};
    }
  }

  /** The slots handed out and not given back. */
  function Live(r: Registry): set<int>
  {
    Range(|r.users|) - Elements(r.free)
  }

  lemma SlotIsLive(r: Registry, session: int)
    requires Consistent(r) && session in r.sessions
    ensures r.sessions[session] in Live(r)
  {
    assert InPlace(r, session);
  }

  /**
   * From an empty registry: the live slots are exactly those of the registered sessions if and
   * only if no session logged in again before it was removed. In any case they are among them,
   * and free and live slots add up to the pool.
   */
  lemma LiveSlotsExactly(users: seq<UserView>, ops: seq<Op>)
    requires |users| <= MAX_SHORT + 1
    ensures var r := Run(Empty(users), ops);
            && SlotsOf(r.sessions, r.sessions.Keys) <= Live(r)
            && (SlotsOf(r.sessions, r.sessions.Keys) == Live(r) <==> Repeats(Empty(users), ops) == 0)
            && |Live(r)| == |r.sessions| + Repeats(Empty(users), ops)
            && |r.free| + |Live(r)| == |users|
  {
    hide Repeats, InPlace, Run;
    var r := Run(Empty(users), ops);
    EmptyIsConsistent(users);
    RunKeepsConsistent(Empty(users), ops, 0);
    SlotsAreConserved(Empty(users), ops);
    forall s, t | s in r.sessions && t in r.sessions && r.sessions[s] == r.sessions[t] ensures s == t {
      SessionsApart(r, s, t);
    }
    InjectiveSize(r.sessions, r.sessions.Keys);
    forall s | s in r.sessions ensures r.sessions[s] in Live(r) {
      SlotIsLive(r, s);
    }
    SlotsCounted(r.free, |r.users|);
    assert Range(|users|) == Live(r) + Elements(r.free);
    SubsetOfSameSize(SlotsOf(r.sessions, r.sessions.Keys), Live(r));
  }

  // ---------- login, anything else, logout ----------

  lemma OthersLeaveSession(r: Registry, op: Op, session: int)
    requires session in r.sessions && op.session != session
    ensures session in Next(r, op).sessions && Next(r, op).sessions[session] == r.sessions[session]
  {
  }

  lemma {:induction false} OthersLeaveSessionThroughout(r: Registry, ops: seq<Op>, session: int)
    requires session in r.sessions && forall i :: 0 <= i < |ops| ==> ops[i].session != session
    ensures session in Run(r, ops).sessions && Run(r, ops).sessions[session] == r.sessions[session]
    decreases |ops|
  {
    if ops == [] {
    } else {
      OthersLeaveSession(r, ops[0], session);
      OthersLeaveSessionThroughout(Next(r, ops[0]), ops[1..], session);
    }
  }

  /**
   * A login that succeeds on a free session, then anything on other sessions, then the removal:
   * the removal succeeds and gives back exactly the slot the login took, which nobody had
   * meanwhile.
   */
  lemma LoginThenLogout(r: Registry, login: Op, ops: seq<Op>, logout: Op)
    requires Consistent(r) && |r.users| <= MAX_SHORT + 1
    requires LogsIn(r, login) && login.session !in r.sessions
    requires forall i :: 0 <= i < |ops| ==> ops[i].session != login.session
    requires logout.Remove? && logout.session == login.session
    ensures var before := Run(Next(r, login), ops);
            var after := Next(before, logout);
            && LogsOut(before, logout)
            && r.free[0] !in before.free
            && after.free == before.free + [r.free[0]]
            && after.sessions == before.sessions - {login.session}
  {
    NextKeepsConsistent(r, login);
    OthersLeaveSessionThroughout(Next(r, login), ops, login.session);
    RunKeepsConsistent(Next(r, login), ops, login.session);
    RemoveKeepsConsistent(Run(Next(r, login), ops), logout);
    assert InPlace(Run(Next(r, login), ops), login.session);
  }

  // ---------- what a session's user holds ----------

  /** The state after these operations: that of the session's last move, or the one before. */
  function StateAfter(ops: seq<Op>, session: int, before: UserState): UserState
  {
    if ops == [] then before
    else
      match ops[|ops| - 1]
      case EnterLobby(s, _) => if s == session then Lobby else StateAfter(ops[..|ops| - 1], session, before)
      case LeaveLobby(s) => if s == session then Login else StateAfter(ops[..|ops| - 1], session, before)
      case EnterRoom(s, _, _) => if s == session then Room else StateAfter(ops[..|ops| - 1], session, before)
      case _ => StateAfter(ops[..|ops| - 1], session, before)
  }

  /** The lobby the session entered last, by itself or with a room, or the one before. */
  function LobbyAfter(ops: seq<Op>, session: int, before: int): int
  {
    if ops == [] then before
    else
      match ops[|ops| - 1]
      case EnterLobby(s, lobby) => if s == session then lobby else LobbyAfter(ops[..|ops| - 1], session, before)
      case EnterRoom(s, lobby, _) => if s == session then lobby else LobbyAfter(ops[..|ops| - 1], session, before)
      case _ => LobbyAfter(ops[..|ops| - 1], session, before)
  }

  /** The room the session entered last, or the one before. */
  function RoomAfter(ops: seq<Op>, session: int, before: int): int
  {
    if ops == [] then before
    else
      match ops[|ops| - 1]
      case EnterRoom(s, _, room) => if s == session then room else RoomAfter(ops[..|ops| - 1], session, before)
      case _ => RoomAfter(ops[..|ops| - 1], session, before)
  }

  /**
   * What the user of a session holds: the id, session and slot number it was registered with, and
   * what the operations on the session since then made of state, lobby and room.
   */
  ghost predicate Holds(u: UserView, session: int, slot: int, id: string, ops: seq<Op>,
                        state: UserState, lobby: int, room: int)
  {
    && u.session == session && u.idx == slot && u.id == id && u.confirmed
    && u.state == StateAfter(ops, session, state)
    && u.lobby == LobbyAfter(ops, session, lobby)
    && u.room == RoomAfter(ops, session, room)
  }

  /** The user in the slot of a registered session. */
  function UserOf(r: Registry, session: int): UserView
    requires session in r.sessions && 0 <= r.sessions[session] < |r.users|
  {
    r.users[r.sessions[session]]
  }

  lemma LastOp(ops: seq<Op>, op: Op)
    ensures (ops + [op])[..|ops + [op]| - 1] == ops && (ops + [op])[|ops + [op]| - 1] == op
  {
  }

  /** An operation that leaves the session registered does to its user what it says. */
  lemma NextHolds(r: Registry, op: Op, session: int, id: string, ops: seq<Op>, state: UserState, lobby: int, room: int)
    requires Consistent(r) && session in r.sessions && session in Next(r, op).sessions
    requires InPlace(r, session)
    requires Holds(UserOf(r, session), session, r.sessions[session], id, ops, state, lobby, room)
    ensures Next(r, op).sessions[session] == r.sessions[session]
    ensures |Next(r, op).users| == |r.users|
    ensures Holds(UserOf(Next(r, op), session), session, r.sessions[session], id, ops + [op], state, lobby, room)
    ensures !(op.Remove? && op.session == session)
  {
    LastOp(ops, op);
    if op.session in r.sessions {
      assert InPlace(r, op.session);
      SessionsApart(r, op.session, session);
    }
  }

  /** What a login that registers its session leaves in the slot that has been free for longest. */
  lemma LoginHolds(r: Registry, op: Op, session: int)
    requires Consistent(r) && |r.users| <= MAX_SHORT + 1
    requires session !in r.sessions && session in Next(r, op).sessions
    ensures LogsIn(r, op) && op.session == session && 0 <= r.free[0] < |r.users| == |Next(r, op).users|
    ensures Next(r, op).sessions[session] == r.free[0]
    ensures var slot := r.free[0];
            Holds(UserOf(Next(r, op), session), session, slot, op.id, [], Login, r.users[slot].lobby, r.users[slot].room)
  {
  }

  /** Where a registered session comes from: a login in these operations, or (-1) from before them. */
  ghost predicate Comes(r: Registry, ops: seq<Op>, session: int, k: int)
  {
    var r' := Run(r, ops);
    && -1 <= k < |ops|
    && session in r'.sessions && 0 <= r'.sessions[session] < |r'.users|
    && (forall i :: k < i < |ops| ==> !(ops[i].Remove? && ops[i].session == session))
    && var slot := r'.sessions[session];
       if k < 0 then
         && session in r.sessions && slot == r.sessions[session] && slot < |r.users|
         && var u := r.users[slot];
            Holds(UserOf(r', session), session, slot, u.id, ops, u.state, u.lobby, u.room)
       else
         var at := Run(r, ops[..k]);
         && session !in at.sessions && LogsIn(at, ops[k]) && ops[k].session == session && slot == at.free[0]
         && slot < |at.users|
         && Holds(UserOf(r', session), session, slot, ops[k].id, ops[k + 1..], Login,
                  at.users[slot].lobby, at.users[slot].room)
  }

  lemma RunNothing(r: Registry)
    ensures Run(r, []) == r
  {
  }

  lemma ComesFromBefore(r: Registry, session: int)
    requires Consistent(r) && session in r.sessions
    ensures Run(r, []) == r && Comes(r, [], session, -1)
  {
    assert InPlace(r, session);
  }

  lemma ComesFromLogin(r: Registry, ops: seq<Op>, op: Op, session: int)
    requires var mid := Run(r, ops);
             && Consistent(mid) && |mid.users| <= MAX_SHORT + 1
             && session !in mid.sessions && session in Next(mid, op).sessions
    requires Run(r, ops + [op]) == Next(Run(r, ops), op)
    ensures Comes(r, ops + [op], session, |ops|)
  {
    hide Run, Next, Holds;
    var more := ops + [op];
    assert more[..|ops|] == ops && more[|ops| + 1..] == [] && more[|ops|] == op;
    LoginHolds(Run(r, ops), op, session);
  }

  lemma ComesOneMore(r: Registry, ops: seq<Op>, op: Op, session: int, k: int)
    requires Comes(r, ops, session, k) && Consistent(Run(r, ops))
    requires Run(r, ops + [op]) == Next(Run(r, ops), op) && session in Run(r, ops + [op]).sessions
    ensures Comes(r, ops + [op], session, k)
  {
    hide Run, Next, Holds;
    var r', more := Run(r, ops), ops + [op];
    assert InPlace(r', session);
    if k < 0 {
      var u := r.users[r.sessions[session]];
      NextHolds(r', op, session, u.id, ops, u.state, u.lobby, u.room);
    } else {
      assert more[..k] == ops[..k] && more[k + 1..] == ops[k + 1..] + [op];
      var at, slot := Run(r, ops[..k]), r'.sessions[session];
      NextHolds(r', op, session, ops[k].id, ops[k + 1..], Login, at.users[slot].lobby, at.users[slot].room);
    }
  }

  /**
   * Over every run: the user of a registered session holds the id given by the login that registered
   * it, that session and its own slot number; its state is that of the last move of this session
   * since, or that of a login; its lobby and its room are those entered last since, or those that
   * the slot's earlier user left behind. The login is the one at place `k`, after which the session
   * was not removed; -1 stands for a session registered, and not removed, since before the run.
   */
  lemma {:induction false} UserTellsItsHistory(r: Registry, ops: seq<Op>, session: int) returns (k: int)
    requires Consistent(r) && |r.users| <= MAX_SHORT + 1 && session in Run(r, ops).sessions
    ensures Comes(r, ops, session, k)
    decreases |ops|
  {
    hide Run, Next, Holds, Comes, InPlace;
    if ops == [] {
      RunNothing(r);
      ComesFromBefore(r, session);
      k := -1;
    } else {
      var n := |ops| - 1;
      var init, op := ops[..n], ops[n];
      assert init + [op] == ops && ops[..n + 1] == ops;
      RunOneMore(r, ops, n);
      RunKeepsConsistent(r, init, session);
      if session in Run(r, init).sessions {
        k := UserTellsItsHistory(r, init, session);
        ComesOneMore(r, init, op, session, k);
      } else {
        ComesFromLogin(r, init, op, session);
        k := n;
      }
    }
  }

  // ---------- the id index ----------

  /** Only a removal whose local copy of the id is at the address itself frees the address. */
  predicate Frees(r: Registry, op: Op, address: nat)
  {
    LogsOut(r, op) && op.copy == address
  }

  lemma FreedExactly(r: Registry, op: Op, address: nat)
    requires address in r.ids
    ensures address in Next(r, op).ids <==> !Frees(r, op, address)
  {
  }

  ghost predicate NeverFreed(r: Registry, ops: seq<Op>, address: nat)
  {
    forall n :: 0 <= n < |ops| ==> !Frees(Run(r, ops[..n]), ops[n], address)
  }

  lemma {:induction false} StaysTaken(r: Registry, ops: seq<Op>, address: nat, n: nat)
    requires address in r.ids && n <= |ops| && NeverFreed(r, ops, address)
    ensures address in Run(r, ops[..n]).ids
    decreases n
  {
    hide Next, Frees;
    if n == 0 {
      assert Run(r, ops[..0]) == r;
    } else {
      StaysTaken(r, ops, address, n - 1);
      RunOneMore(r, ops, n - 1);
      FreedExactly(Run(r, ops[..n - 1]), ops[n - 1], address);
    }
  }

  /**
   * The id index is keyed by addresses, and removal erases the address of a local copy. So an
   * address once taken is taken at every later moment of a run if and only if no removal that
   * succeeds has its local copy at this very address.
   */
  lemma IdTakenUntilFreed(r: Registry, ops: seq<Op>, address: nat)
    requires address in r.ids
    ensures (forall n :: 0 <= n <= |ops| ==> address in Run(r, ops[..n]).ids) <==> NeverFreed(r, ops, address)
  {
    hide Run, Next, Frees;
    if NeverFreed(r, ops, address) {
      forall n | 0 <= n <= |ops| ensures address in Run(r, ops[..n]).ids {
        StaysTaken(r, ops, address, n);
      }
    } else {
      var n :| 0 <= n < |ops| && Frees(Run(r, ops[..n]), ops[n], address);
      RunOneMore(r, ops, n);
      if address in Run(r, ops[..n]).ids {
        FreedExactly(Run(r, ops[..n]), ops[n], address);
        assert address !in Run(r, ops[..n + 1]).ids;
      }
    }
  }

  /**
   * After a login and its logout everything is as before, but for the order of the queue and the
   * id: it can log in again if and only if the local copy was at its very address.
   */
  lemma IdFreedExactly(r: Registry, login: Op, copy: nat)
    requires Consistent(r) && |r.users| <= MAX_SHORT + 1
    requires LogsIn(r, login) && login.session !in r.sessions
    ensures var after := Next(Next(r, login), Remove(login.session, copy));
            && after.sessions == r.sessions && after.free == r.free[1..] + [r.free[0]]
            && (LogsIn(after, login) <==> copy == login.address)
  {
    NextKeepsConsistent(r, login);
    var r' := Next(r, login);
    assert InPlace(r', login.session);
    assert r'.sessions - {login.session} == r.sessions;
  }

  // ---------- concrete cases ----------

  const NOBODY: UserView := UserView(-1, -1, "", false, NoState, -1, -1)

  /** A user who cannot log in a second time. */
  lemma SecondLoginRejected()
    ensures var first := Next(Empty([NOBODY]), Add(7, 100, "ann"));
            var gone := Next(first, Remove(7, 200));
            gone.sessions == map[] && gone.free == [0] && AddUser(gone, 7, 100, "ann").1 == IdDuplication
  {
    var first := Next(Empty([NOBODY]), Add(7, 100, "ann"));
    assert first.users[0].idx == 0;
  }

  /** What a login does, as far as the numbers of slots go. */
  lemma LoginStep(r: Registry, session: int, address: nat, id: string)
    requires address !in r.ids && r.free != [] && 0 <= r.free[0] < |r.users|
    ensures var r' := Next(r, Add(session, address, id));
            && r'.free == r.free[1..] && r'.ids.Keys == r.ids.Keys + {address} && |r'.users| == |r.users|
            && r'.sessions == (if session in r.sessions then r.sessions else r.sessions[session := r.free[0]])
            && (forall i :: 0 <= i < |r.users| ==>
                  r'.users[i].idx == if i == r.free[0] then ToShort(i) else r.users[i].idx)
  {
  }

  lemma LogoutStep(r: Registry, session: int, copy: nat)
    requires session in r.sessions && 0 <= r.sessions[session] < |r.users|
    ensures var r' := Next(r, Remove(session, copy));
            && r'.free == r.free + [r.users[r.sessions[session]].idx] && r'.ids.Keys == r.ids.Keys - {copy}
            && r'.users == r.users && r'.sessions == r.sessions - {session}
  {
  }

  lemma TwoLogins()
    ensures var r := Next(Next(Empty([NOBODY, NOBODY]), Add(7, 100, "ann")), Add(7, 101, "bob"));
            && r.free == [] && r.sessions == map[7 := 0] && r.ids.Keys == {100, 101}
            && |r.users| == 2 && r.users[0].idx == 0
  {
    hide Next;
    var r0 := Empty([NOBODY, NOBODY]);
    var r1 := Next(r0, Add(7, 100, "ann"));
    assert r0.free == [0, 1];
    LoginStep(r0, 7, 100, "ann");
    assert r1.free == [1];
    LoginStep(r1, 7, 101, "bob");
  }

  lemma TwoLoginsThenLogout(copy: nat) returns (r: Registry)
    ensures r == Next(Next(Next(Empty([NOBODY, NOBODY]), Add(7, 100, "ann")), Add(7, 101, "bob")), Remove(7, copy))
    ensures r.free == [0] && r.sessions == map[] && r.ids.Keys <= {100, 101} && |r.users| == 2
  {
    hide Next;
    TwoLogins();
    var twice := Next(Next(Empty([NOBODY, NOBODY]), Add(7, 100, "ann")), Add(7, 101, "bob"));
    LogoutStep(twice, 7, copy);
    r := Next(twice, Remove(7, copy));
  }

  lemma NoSlotLeft(r: Registry, session: int, address: nat, id: string)
    requires r.free == [] && address !in r.ids
    ensures AddUser(r, session, address, id).1 == OutsidePool
  {
  }

  /** One session that logs in twice uses up a pool of two for ever: later, one other session fills it. */
  lemma RepeatedLoginRunsOut(copy: nat)
    ensures var twice := Next(Next(Empty([NOBODY, NOBODY]), Add(7, 100, "ann")), Add(7, 101, "bob"));
            var other := Next(Next(twice, Remove(7, copy)), Add(8, 102, "cy"));
            |other.sessions| == 1 && AddUser(other, 9, 103, "dee").1 == OutsidePool
  {
    hide Next, AddUser;
    var r3 := TwoLoginsThenLogout(copy);
    var r4 := Next(r3, Add(8, 102, "cy"));
    LoginStep(r3, 8, 102, "cy");
    OneMoreKey(r3.sessions, 8, 0);
    NoSlotLeft(r4, 9, 103, "dee");
  }

  /** Logins of sessions 0, 1, .. with ids at addresses of their own. */
  function Logins(n: nat): seq<Op>
  {
    seq(n, i requires 0 <= i < n => Add(i, i, ""))
  }

  /** The first `n` slots are taken, by the sessions and ids with these numbers. */
  ghost predicate Filled(r: Registry, size: nat, n: nat)
  {
    && n <= size == |r.users|
    && r.free == InOrder(size)[n..]
    && (forall s :: s in r.sessions ==> 0 <= s < n)
    && (forall a :: a in r.ids ==> 0 <= a < n)
  }

  lemma OneMoreLogin(r: Registry, size: nat, n: nat)
    requires Filled(r, size, n) && n < size
    ensures Filled(Next(r, Add(n, n, "")), size, n + 1)
  {
  }

  lemma {:induction false} FirstLogins(users: seq<UserView>, n: nat)
    requires n <= |users|
    ensures Filled(Run(Empty(users), Logins(n)), |users|, n)
  {
    hide Next;
    if n == 0 {
      assert Logins(0) == [];
    } else {
      FirstLogins(users, n - 1);
      assert Logins(n)[..n - 1] == Logins(n - 1) && Logins(n)[..n] == Logins(n);
      RunOneMore(Empty(users), Logins(n), n - 1);
      OneMoreLogin(Run(Empty(users), Logins(n - 1)), |users|, n - 1);
    }
  }

  /**
   * In every larger pool a run of first logins breaks this: the user in slot 32768 keeps the number
   * -32768, and its removal puts that into the queue. In a pool of 32769 the next login gets it.
   */
  lemma SlotOutgrowsShort(users: seq<UserView>, copy: nat, next: nat)
    requires |users| > MAX_SHORT + 1 && next > MAX_SHORT + 1
    ensures var full := Run(Empty(users), Logins(MAX_SHORT + 1));
            var last := Next(full, Add(MAX_SHORT + 1, MAX_SHORT + 1, ""));
            var gone := Next(last, Remove(MAX_SHORT + 1, copy));
            && !Consistent(last)
            && gone.free == last.free + [-0x8000]
            && (|users| == MAX_SHORT + 2 ==>
                  gone.free == [-0x8000] && AddUser(gone, MAX_SHORT + 1, next, "").1 == OutsidePool)
  {
    hide Run;
    FirstLogins(users, MAX_SHORT + 1);
    var last := Next(Run(Empty(users), Logins(MAX_SHORT + 1)), Add(MAX_SHORT + 1, MAX_SHORT + 1, ""));
    assert last.sessions[MAX_SHORT + 1] == MAX_SHORT + 1;
    assert !InPlace(last, MAX_SHORT + 1);
  }
}
