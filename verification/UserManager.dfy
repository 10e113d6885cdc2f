/** The user manager over pooled user objects (UserManager.cpp, User.cpp). */
module UserManager {
  import opened Text
  import opened ObjectPool
  import R = Registry

  class User {
    var idx: int
    var sessionIdx: int
    var id: string
    var isConfirm: bool
    var currentState: R.UserState
    var lobbyIdx: int
    var roomIdx: int

    ghost function View(): R.UserView
      reads this
    {
      R.UserView(idx, sessionIdx, id, isConfirm, currentState, lobbyIdx, roomIdx)
    }

    constructor ()
      ensures View() == R.UserView(-1, -1, "", false, R.NoState, -1, -1)
    {
      idx, sessionIdx, id, isConfirm := -1, -1, "", false;
      currentState, lobbyIdx, roomIdx := R.NoState, -1, -1;
    }

    method Init(index: int)
      modifies this`idx
      ensures View() == R.Initialised(old(View()), index)
    {
      idx := R.ToShort(index);
    }

    method Clear()
      modifies this
      ensures View() == R.UserView(old(idx), 0, "", false, R.NoState, -1, -1)
    {
      sessionIdx := 0;
      id := "";
      isConfirm := false;
      currentState := R.NoState;
      lobbyIdx := -1;
      roomIdx := -1;
    }

    method Set(sessionIdx: int, id: string)
      modifies this
      ensures View() == R.Set(old(View()), sessionIdx, id)
    {
      isConfirm := true;
      currentState := R.Login;
      this.sessionIdx := sessionIdx;
      this.id := id;
    }

    method EnterLobby(lobbyIdx: int)
      modifies this
      ensures View() == R.ToLobby(lobbyIdx)(old(View()))
    {
      this.lobbyIdx := lobbyIdx;
      currentState := R.Lobby;
    }

    method LeaveLobby()
      modifies this
      ensures View() == R.FromLobby()(old(View()))
    {
      currentState := R.Login;
    }

    method EnterRoom(lobbyIdx: int, roomIdx: int)
      modifies this
      ensures View() == R.ToRoom(lobbyIdx, roomIdx)(old(View()))
    {
      this.lobbyIdx := lobbyIdx;
      this.roomIdx := roomIdx;
      currentState := R.Room;
    }
  }

  /** The pool keeps a unique pointer in each slot. */
  ghost predicate Apart(slots: seq<User>)
  {
    forall i, j :: 0 <= i < j < |slots| ==> slots[i] != slots[j]
  }

  ghost function Views(slots: seq<User>): (views: seq<R.UserView>)
    reads slots
    ensures |views| == |slots|
    ensures forall i :: 0 <= i < |views| ==> views[i] == slots[i].View()
  {
    seq(|slots|, i reads slots requires 0 <= i < |slots| => slots[i].View())
  }

  /** The slot of a pooled user. */
  ghost function SlotOf(slots: seq<User>, u: User): (slot: int)
    requires u in slots
    ensures 0 <= slot < |slots| && slots[slot] == u
  {
    var slot :| 0 <= slot < |slots| && slots[slot] == u;
    slot
  }

  ghost predicate AllIn<K>(slots: seq<User>, dic: map<K, User>)
  {
    forall k :: k in dic ==> dic[k] in slots
  }

  /** A dictionary of users, with the slots in their place. */
  ghost function SlotMap<K>(slots: seq<User>, dic: map<K, User>): (m: map<K, int>)
    requires AllIn(slots, dic)
    ensures m.Keys == dic.Keys
    ensures forall k :: k in dic ==> m[k] == SlotOf(slots, dic[k])
  {
    map k | k in dic :: SlotOf(slots, dic[k])
  }

  lemma SlotMapAdd<K>(slots: seq<User>, dic: map<K, User>, k: K, slot: int)
    requires AllIn(slots, dic) && 0 <= slot < |slots|
    requires Apart(slots)
    ensures AllIn(slots, dic[k := slots[slot]])
    ensures SlotMap(slots, dic[k := slots[slot]]) == SlotMap(slots, dic)[k := slot]
  {
    assert SlotOf(slots, slots[slot]) == slot;
  }

  lemma SlotMapRemove<K>(slots: seq<User>, dic: map<K, User>, k: K)
    requires AllIn(slots, dic)
    ensures AllIn(slots, dic - {k})
    ensures SlotMap(slots, dic - {k}) == SlotMap(slots, dic) - {k}
  {
  }

  class Manager {
    const userPool: Pool<User>
    var userSessionDic: map<int, User>
    /** Keyed by the address of the id text. */
    var userIDDic: map<nat, User>

    ghost predicate Valid()
      reads this
    {
      Apart(userPool.slots) && AllIn(userPool.slots, userSessionDic) && AllIn(userPool.slots, userIDDic)
    }

    /** The registry this manager represents. */
    ghost function Now(): R.Registry
      reads this, userPool, userPool.slots
      requires Valid()
    {
      R.Registry(Views(userPool.slots), userPool.poolIndex,
                 SlotMap(userPool.slots, userSessionDic), SlotMap(userPool.slots, userIDDic))
    }

    constructor (userPool: Pool<User>)
      requires Apart(userPool.slots) && userPool.poolIndex == InOrder(|userPool.slots|)
      ensures this.userPool == userPool && Valid() && Now() == R.Empty(Views(userPool.slots))
    {
      this.userPool := userPool;
      this.userSessionDic := map[];
      this.userIDDic := map[];
    }

    method FindUser(sessionIdx: int) returns (user: Option<User>)
      requires Valid()
      ensures user == if sessionIdx in userSessionDic then Some(userSessionDic[sessionIdx]) else None
    {
      user := if sessionIdx in userSessionDic then Some(userSessionDic[sessionIdx]) else None;
    }

    /** Where the pool's tag is no slot, the source goes on outside the pool; here it ends. */
    method AddUser(sessionIdx: int, address: nat, id: string) returns (error: R.ErrorCode)
      requires Valid()
      modifies this, userPool, userPool.slots
      ensures Valid()
      ensures (Now(), error) == R.AddUser(old(Now()), sessionIdx, address, id)
      ensures error == R.IdDuplication <==> address in old(userIDDic)
    {
      if address in userIDDic {
        return R.IdDuplication;
      }
      var userTag := userPool.GetTag();
      if !(0 <= userTag < |userPool.slots|) {
        return R.OutsidePool;
      }
      Occupy(userTag, sessionIdx, id);
      Register(sessionIdx, address, userTag);
      return R.NoError;
    }

    /** The user object of a slot taken by a login. */
    method Occupy(tag: int, sessionIdx: int, id: string)
      requires Valid() && 0 <= tag < |userPool.slots|
      modifies userPool.slots[tag]
      ensures Views(userPool.slots)
              == old(Views(userPool.slots))[tag := R.Set(R.Initialised(old(Views(userPool.slots))[tag], tag), sessionIdx, id)]
    {
      var user := userPool.slots[tag];
      user.Init(tag);
      user.Set(sessionIdx, id);
    }

    /** The two insertions of a login; an existing session keeps its entry. */
    method Register(sessionIdx: int, address: nat, tag: int)
      requires Valid() && 0 <= tag < |userPool.slots|
      modifies this
      ensures Valid()
      ensures SlotMap(userPool.slots, userSessionDic)
              == (if sessionIdx in old(userSessionDic) then SlotMap(userPool.slots, old(userSessionDic))
                  else SlotMap(userPool.slots, old(userSessionDic))[sessionIdx := tag])
      ensures SlotMap(userPool.slots, userIDDic) == SlotMap(userPool.slots, old(userIDDic))[address := tag]
    {
      SlotMapAdd(userPool.slots, userSessionDic, sessionIdx, tag);
      SlotMapAdd(userPool.slots, userIDDic, address, tag);
      if sessionIdx !in userSessionDic {
        userSessionDic := userSessionDic[sessionIdx := userPool.slots[tag]];
      }
      userIDDic := userIDDic[address := userPool.slots[tag]];
    }

    /** `copy` is the address of the local copy of the id. */
    method RemoveUser(sessionIdx: int, copy: nat) returns (error: R.ErrorCode)
      requires Valid()
      modifies this, userPool
      ensures Valid()
      ensures (Now(), error) == R.RemoveUser(old(Now()), sessionIdx, copy)
      ensures error == if sessionIdx in old(userSessionDic) then R.NoError else R.RemoveInvalidSession
    {
      var user := FindUser(sessionIdx);
      if user.None? {
        return R.RemoveInvalidSession;
      }
      var idx := user.value.idx;
      Unregister(sessionIdx, copy);
      userPool.ReleaseTag(idx);
      error := R.NoError;
    }

    /** The two erasures of a removal. */
    method Unregister(sessionIdx: int, copy: nat)
      requires Valid()
      modifies this
      ensures Valid()
      ensures SlotMap(userPool.slots, userSessionDic)
              == SlotMap(userPool.slots, old(userSessionDic)) - {sessionIdx}
      ensures SlotMap(userPool.slots, userIDDic) == SlotMap(userPool.slots, old(userIDDic)) - {copy}
    {
      SlotMapRemove(userPool.slots, userSessionDic, sessionIdx);
      SlotMapRemove(userPool.slots, userIDDic, copy);
      userSessionDic := userSessionDic - {sessionIdx};
      userIDDic := userIDDic - {copy};
    }

    method GetUser(sessionIdx: int) returns (error: R.ErrorCode, user: Option<User>)
      requires Valid()
      ensures error == R.GetUser(Now(), sessionIdx)
      ensures user == if error == R.NoError then Some(userPool.slots[Now().sessions[sessionIdx]]) else None
    {
      var destUser := FindUser(sessionIdx);
      if destUser.None? {
        return R.InvalidSessionIndex, None;
      }
      if destUser.value.isConfirm == false {
        return R.NotConfirmUser, None;
      }
      return R.NoError, destUser;
    }
  }

  /** A handler that moves the user of a session into a lobby. */
  method EnterLobby(manager: Manager, sessionIdx: int, lobbyIdx: int)
    requires manager.Valid()
    modifies manager.userPool.slots
    ensures manager.Valid()
    ensures manager.Now() == R.Next(old(manager.Now()), R.EnterLobby(sessionIdx, lobbyIdx))
  {
    ghost var before := manager.Now();
    var error, user := manager.GetUser(sessionIdx);
    if error == R.NoError {
      user.value.EnterLobby(lobbyIdx);
      OneChanged(manager, before, sessionIdx, R.ToLobby(lobbyIdx));
    }
  }

  method LeaveLobby(manager: Manager, sessionIdx: int)
    requires manager.Valid()
    modifies manager.userPool.slots
    ensures manager.Valid()
    ensures manager.Now() == R.Next(old(manager.Now()), R.LeaveLobby(sessionIdx))
  {
    ghost var before := manager.Now();
    var error, user := manager.GetUser(sessionIdx);
    if error == R.NoError {
      user.value.LeaveLobby();
      OneChanged(manager, before, sessionIdx, R.FromLobby());
    }
  }

  method EnterRoom(manager: Manager, sessionIdx: int, lobbyIdx: int, roomIdx: int)
    requires manager.Valid()
    modifies manager.userPool.slots
    ensures manager.Valid()
    ensures manager.Now() == R.Next(old(manager.Now()), R.EnterRoom(sessionIdx, lobbyIdx, roomIdx))
  {
    ghost var before := manager.Now();
    var error, user := manager.GetUser(sessionIdx);
    if error == R.NoError {
      user.value.EnterRoom(lobbyIdx, roomIdx);
      OneChanged(manager, before, sessionIdx, R.ToRoom(lobbyIdx, roomIdx));
    }
  }

  /** A change through one user object changes that slot and, slots being distinct, no other. */
  lemma OneChanged(manager: Manager, before: R.Registry, sessionIdx: int, change: R.UserView -> R.UserView)
    requires manager.Valid() && R.GetUser(before, sessionIdx) == R.NoError
    requires |before.users| == |manager.userPool.slots|
    requires before.free == manager.userPool.poolIndex
    requires before.sessions == manager.Now().sessions && before.ids == manager.Now().ids
    requires forall i :: 0 <= i < |before.users| ==>
               manager.userPool.slots[i].View()
               == if i == before.sessions[sessionIdx] then change(before.users[i]) else before.users[i]
    ensures manager.Now() == R.Changed(before, sessionIdx, change)
  {
    assert Views(manager.userPool.slots) == R.Changed(before, sessionIdx, change).users;
  }
}
