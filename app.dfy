/**
 * The placement store of src/App.tsx. Each handler builds new arrays from the
 * current `users` (unplaced) and `placedUsers` with spread, `filter`, `map` and
 * `find`, then overwrites the component state with them. The array expressions
 * are the functions below; the component state is the class `AppState`.
 */
module App {
  import opened Wrappers
  import opened Types
  import ZodiacData
  import ZodiacMap

  /** The ids occurring in a list of users. */
  function Ids(users: seq<User>): set<string>
  {
    set u | u in users :: u.id
  }

  /** `users.filter(u => u.id !== id)`. */
  function WithoutId(users: seq<User>, id: string): (r: seq<User>)
    ensures |r| <= |users|
    ensures forall u :: u in r <==> u in users && u.id != id
    ensures Ids(r) == Ids(users) - {id}
    ensures id !in Ids(users) ==> r == users
  {
    if users == [] then []
    else if users[0].id != id then [users[0]] + WithoutId(users[1..], id)
    else WithoutId(users[1..], id)
  }

  /** Filtering distributes over concatenation, so the kept records stay in their original order. */
  lemma {:induction false} WithoutIdAppend(a: seq<User>, b: seq<User>, id: string)
    ensures WithoutId(a + b, id) == WithoutId(a, id) + WithoutId(b, id)
  {
    if a == [] {
      assert a + b == b;
    } else {
      assert (a + b)[0] == a[0];
      assert (a + b)[1..] == a[1..] + b;
      WithoutIdAppend(a[1..], b, id);
    }
  }

  /** The index `find` stops at: the first record carrying `id`. */
  function FirstIndexOfId(users: seq<User>, id: string): (r: Option<nat>)
    ensures r.Some? ==> r.value < |users| && users[r.value].id == id
    ensures r.Some? ==> forall j :: 0 <= j < r.value ==> users[j].id != id
    ensures r.None? <==> id !in Ids(users)
  {
    if users == [] then None
    else if users[0].id == id then Some(0)
    else match FirstIndexOfId(users[1..], id)
      case None => (assert forall u :: u in users ==> u == users[0] || u in users[1..]; None)
      case Some(i) => Some(i + 1)
  }

  /** `users.find(u => u.id === id)`: the first record carrying `id`, or undefined. */
  function FindById(users: seq<User>, id: string): (r: Option<User>)
    ensures r.Some? <==> id in Ids(users)
    ensures r.Some? ==> r.value in users && r.value.id == id
    ensures r.Some? ==> exists i :: 0 <= i < |users| && users[i] == r.value &&
                                    forall j :: 0 <= j < i ==> users[j].id != id
  {
    match FirstIndexOfId(users, id)
    case None => None
    case Some(i) => Some(users[i])
  }

  /** `find` on a list with a record appended finds the appended one when the prefix has no match. */
  lemma FindAfterAppend(users: seq<User>, u: User)
    requires u.id !in Ids(users)
    ensures FindById(users + [u], u.id) == Some(u)
  {

  }

  /** `users.map(u => u.id === id ? { ...u, name, sign } : u)`. */
  function UpdateWhereId(users: seq<User>, id: string, name: string, sign: string): (r: seq<User>)
    ensures |r| == |users|
    ensures forall i :: 0 <= i < |users| ==>
      && r[i].id == users[i].id
      && r[i].position == users[i].position
      && r[i].placedOppositeSign == users[i].placedOppositeSign
    ensures forall i :: 0 <= i < |users| && users[i].id == id ==> r[i].name == name && r[i].sign == sign
    ensures forall i :: 0 <= i < |users| && users[i].id != id ==> r[i] == users[i]
  {
    if users == [] then []
    else
      var head := if users[0].id == id then users[0].(name := name, sign := sign) else users[0];
      [head] + UpdateWhereId(users[1..], id, name, sign)
  }

  /** The update leaves the set of ids alone, and an absent id changes nothing. */
  lemma UpdateWhereIdFrame(users: seq<User>, id: string, name: string, sign: string)
    ensures Ids(UpdateWhereId(users, id, name, sign)) == Ids(users)
    ensures id !in Ids(users) ==> UpdateWhereId(users, id, name, sign) == users
  {

  }

  /** The two lists the handlers rebuild: `users` (unplaced) and `placedUsers`. */
  datatype Rosters = Rosters(users: seq<User>, placedUsers: seq<User>)

  /** Every id known to the store. */
  function AllIds(s: Rosters): set<string>
  {
    Ids(s.users) + Ids(s.placedUsers)
  }

  /** No id is both unplaced and placed. */
  predicate Disjoint(s: Rosters)
  {
    Ids(s.users) !! Ids(s.placedUsers)
  }

  /** A record has a position exactly when it sits on the placed list. */
  predicate PositionsMatchRoster(s: Rosters)
  {
    && (forall u :: u in s.users ==> u.position.None?)
    && (forall u :: u in s.placedUsers ==> u.position.Some?)
  }

  /** `handleAddUser`: a new unplaced record at the end of `users`. */
  function AddUser(s: Rosters, id: string, name: string, sign: string): (r: Rosters)
    ensures |r.users| == |s.users| + 1 && r.users[..|s.users|] == s.users
    ensures r.users[|s.users|] == User(id, name, sign, None, None)
    ensures r.placedUsers == s.placedUsers
    ensures AllIds(r) == AllIds(s) + {id}
    ensures Disjoint(s) && id !in Ids(s.placedUsers) ==> Disjoint(r)
    ensures PositionsMatchRoster(s) ==> PositionsMatchRoster(r)
  {
    var newUsers := s.users + [User(id, name, sign, None, None)];
    assert Ids(newUsers) == Ids(s.users) + {id} by {
      assert forall u :: u in newUsers <==> u in s.users || u == newUsers[|s.users|];
    }
    Rosters(newUsers, s.placedUsers)
  }

  /** `handleUserPlaced`: the snapshot, at the drop position, goes to the end of `placedUsers`; its id leaves `users`. */
  function UserPlaced(s: Rosters, user: User, position: Point): (r: Rosters)
    ensures |r.placedUsers| == |s.placedUsers| + 1 && r.placedUsers[..|s.placedUsers|] == s.placedUsers
    ensures
      var p := r.placedUsers[|s.placedUsers|];
      && p.id == user.id && p.name == user.name && p.sign == user.sign
      && p.placedOppositeSign == user.placedOppositeSign
      && p.position == Some(position)
    ensures r.users == WithoutId(s.users, user.id)
    ensures user.id !in Ids(r.users)
    ensures AllIds(r) == AllIds(s) + {user.id}
    ensures Disjoint(s) && user.id !in Ids(s.placedUsers) ==> Disjoint(r)
    ensures PositionsMatchRoster(s) ==> PositionsMatchRoster(r)
  {
    var newPlacedUsers := s.placedUsers + [user.(position := Some(position))];
    assert Ids(newPlacedUsers) == Ids(s.placedUsers) + {user.id} by {
      assert forall u :: u in newPlacedUsers <==> u in s.placedUsers || u == newPlacedUsers[|s.placedUsers|];
    }
    Rosters(WithoutId(s.users, user.id), newPlacedUsers)
  }

  /**
   * `handleRemoveUser`: when `id` is placed, every placed record with that id
   * goes, and the first of them returns to the end of `users` with a null
   * position (its `placedOppositeSign` is kept). Otherwise nothing changes.
   */
  function RemoveUser(s: Rosters, id: string): (r: Rosters)
    ensures id !in Ids(s.placedUsers) ==> r == s
    ensures id in Ids(s.placedUsers) ==>
      && r.placedUsers == WithoutId(s.placedUsers, id)
      && |r.users| == |s.users| + 1 && r.users[..|s.users|] == s.users
      && r.users[|s.users|] == FindById(s.placedUsers, id).value.(position := None)
    ensures id !in Ids(r.placedUsers)
    ensures AllIds(r) == AllIds(s)
    ensures Disjoint(s) ==> Disjoint(r)
    ensures PositionsMatchRoster(s) ==> PositionsMatchRoster(r)
  {
    match FindById(s.placedUsers, id)
    case None => s
    case Some(userToRemove) =>
      var newUsers := s.users + [userToRemove.(position := None)];
      assert Ids(newUsers) == Ids(s.users) + {id} by {
        assert forall u :: u in newUsers <==> u in s.users || u == newUsers[|s.users|];
      }
      Rosters(newUsers, WithoutId(s.placedUsers, id))
  }

  /** `handleUpdateUnplacedUser`: every unplaced record with `id` takes the new name and sign, in place. */
  function UpdateUnplacedUser(s: Rosters, id: string, name: string, sign: string): (r: Rosters)
    ensures r.users == UpdateWhereId(s.users, id, name, sign)
    ensures r.placedUsers == s.placedUsers
    ensures AllIds(r) == AllIds(s)
    ensures Disjoint(s) ==> Disjoint(r)
    ensures PositionsMatchRoster(s) ==> PositionsMatchRoster(r)
    ensures id !in Ids(s.users) ==> r == s
  {
    UpdateWhereIdFrame(s.users, id, name, sign);
    Rosters(UpdateWhereId(s.users, id, name, sign), s.placedUsers)
  }

  /** `handleRemoveUnplacedUser`: the unplaced records with `id` are dropped for good. */
  function RemoveUnplacedUser(s: Rosters, id: string): (r: Rosters)
    ensures r.users == WithoutId(s.users, id)
    ensures r.placedUsers == s.placedUsers
    ensures Ids(r.users) == Ids(s.users) - {id}
    ensures Disjoint(s) ==> Disjoint(r)
    ensures PositionsMatchRoster(s) ==> PositionsMatchRoster(r)
    ensures id !in Ids(s.users) ==> r == s
  {
    Rosters(WithoutId(s.users, id), s.placedUsers)
  }

  /**
   * Placing a user that is not yet placed and then removing it from the map
   * restores `placedUsers` and brings the record back to the end of `users`
   * with the same id, name, sign and recorded sector, and a null position.
   */
  lemma PlaceThenRemove(s: Rosters, user: User, position: Point)
    requires user.id !in Ids(s.placedUsers)
    ensures RemoveUser(UserPlaced(s, user, position), user.id) ==
            Rosters(WithoutId(s.users, user.id) + [user.(position := None)], s.placedUsers)
  {
    var placedRecord := user.(position := Some(position));
    var t := UserPlaced(s, user, position);
    assert t.placedUsers == s.placedUsers + [placedRecord];
    FindAfterAppend(s.placedUsers, placedRecord);
    WithoutIdAppend(s.placedUsers, [placedRecord], user.id);
    assert WithoutId([placedRecord], user.id) == [];
  }

  /** Removing the same id from the map twice: the second call changes nothing. */
  lemma RemoveTwice(s: Rosters, id: string)
    ensures RemoveUser(RemoveUser(s, id), id) == RemoveUser(s, id)
  {
  }

  /**
   * The life of one person: added with a fresh id, dragged from the roster and
   * dropped (stamped with the sector `sector`), then removed from the map. The
   * roster ends with the person at its end, position null and the sector kept.
   */
  lemma AddPlaceRemove(s: Rosters, id: string, name: string, sign: string, sector: string, position: Point)
    requires id !in AllIds(s)
    ensures
      var added := AddUser(s, id, name, sign);
      var snapshot := added.users[|s.users|].(placedOppositeSign := Some(sector));
      var back := RemoveUser(UserPlaced(added, snapshot, position), id);
      back == Rosters(s.users + [User(id, name, sign, None, Some(sector))], s.placedUsers)
  {
    var added := AddUser(s, id, name, sign);
    var snapshot := User(id, name, sign, None, Some(sector));
    assert added.users == s.users + [User(id, name, sign, None, None)];
    PlaceThenRemove(added, snapshot, position);
    WithoutIdAppend(s.users, [User(id, name, sign, None, None)], id);
    assert WithoutId([User(id, name, sign, None, None)], id) == [];
    assert id !in Ids(s.users);
  }

  /** The component state of `App`: the two rosters and the selected sign. */
  class AppState {
    var users: seq<User>
    var placedUsers: seq<User>
    var selectedSign: Option<string>

    /** The two rosters as one value. */
    function State(): Rosters
      reads this
    {
      Rosters(users, placedUsers)
    }

    /** The initial `useState` values (what local storage would restore is not modelled). */
    constructor ()
      ensures users == [] && placedUsers == [] && selectedSign == None
      ensures Disjoint(State()) && PositionsMatchRoster(State())
    {
      users := [];
      placedUsers := [];
      selectedSign := None;
    }

    /**
     * `handleAddUser`, reached only through the form, which submits non-empty
     * name and sign; `freshId` stands for `crypto.randomUUID()`.
     */
    method HandleAddUser(name: string, sign: string, freshId: string)
      requires name != "" && sign != ""
      requires freshId !in AllIds(State())
      modifies this
      ensures State() == AddUser(old(State()), freshId, name, sign)
      ensures selectedSign == old(selectedSign)
      ensures old(Disjoint(State())) ==> Disjoint(State())
      ensures old(PositionsMatchRoster(State())) ==> PositionsMatchRoster(State())
    {
      var next := AddUser(State(), freshId, name, sign);
      users := next.users;
    }

    /** `handleUserPlaced`, the `onUserPlaced` callback of the map. */
    method HandleUserPlaced(user: User, position: Point)
      modifies this
      ensures State() == UserPlaced(old(State()), user, position)
      ensures selectedSign == old(selectedSign)
      ensures old(Disjoint(State())) && user.id !in old(Ids(placedUsers)) ==> Disjoint(State())
      ensures old(PositionsMatchRoster(State())) ==> PositionsMatchRoster(State())
    {
      var next := UserPlaced(State(), user, position);
      placedUsers := next.placedUsers;
      users := next.users;
    }

    /** `handleRemoveUser`, the `onUserRemove` callback of the map and the table. */
    method HandleRemoveUser(userId: string)
      modifies this
      ensures State() == RemoveUser(old(State()), userId)
      ensures selectedSign == old(selectedSign)
      ensures old(Disjoint(State())) ==> Disjoint(State())
      ensures old(PositionsMatchRoster(State())) ==> PositionsMatchRoster(State())
    {
      var userToRemove := FindById(placedUsers, userId);
      if userToRemove.Some? {
        var next := RemoveUser(State(), userId);
        placedUsers := next.placedUsers;
        users := next.users;
      }
    }

    /** `handleUpdateUnplacedUser`. */
    method HandleUpdateUnplacedUser(userId: string, name: string, sign: string)
      modifies this
      ensures State() == UpdateUnplacedUser(old(State()), userId, name, sign)
      ensures selectedSign == old(selectedSign)
      ensures old(Disjoint(State())) ==> Disjoint(State())
      ensures old(PositionsMatchRoster(State())) ==> PositionsMatchRoster(State())
    {
      users := UpdateUnplacedUser(State(), userId, name, sign).users;
    }

    /** `handleRemoveUnplacedUser`. */
    method HandleRemoveUnplacedUser(userId: string)
      modifies this
      ensures State() == RemoveUnplacedUser(old(State()), userId)
      ensures selectedSign == old(selectedSign)
      ensures old(Disjoint(State())) ==> Disjoint(State())
      ensures old(PositionsMatchRoster(State())) ==> PositionsMatchRoster(State())
    {
      users := RemoveUnplacedUser(State(), userId).users;
    }

    /** `setSelectedSign`, passed to the map as `onSignSelect`. */
    method SetSelectedSign(sign: Option<string>)
      modifies this
      ensures selectedSign == sign
      ensures State() == old(State())
    {
      selectedSign := sign;
    }

    /** A click on the circle of sign `key`: the map passes the toggled selection to `setSelectedSign`. */
    method ClickSign(key: string)
      modifies this
      ensures selectedSign == ZodiacMap.ClickSelection(old(selectedSign), key)
      ensures State() == old(State())
    {
      SetSelectedSign(ZodiacMap.ClickSelection(selectedSign, key));
    }

    /**
     * A drop on the map wired to `handleUserPlaced`: with a payload, the
     * snapshot stamped with the nearest sector is placed at the drop point;
     * without one nothing changes.
     */
    method Drop(anchors: seq<Point>, payload: Option<User>, drop: Point)
      requires |anchors| == |ZodiacData.Keys|
      modifies this
      ensures payload.None? ==> State() == old(State())
      ensures payload.Some? ==>
        State() == UserPlaced(old(State()),
                              payload.value.(placedOppositeSign := Some(ZodiacData.Keys[ZodiacMap.NearestIndex(anchors, drop)])),
                              drop)
      ensures selectedSign == old(selectedSign)
      ensures old(PositionsMatchRoster(State())) ==> PositionsMatchRoster(State())
    {
      var placement := ZodiacMap.HandleDrop(anchors, payload, drop);
      if placement.Some? {
        HandleUserPlaced(placement.value.user, placement.value.position);
      }
    }
  }
}
