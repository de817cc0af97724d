/**
 * The shared database the four handlers work on, as one object: the
 * `users`, `spots`, `queue`, `state_meta` and `settings` tables. Each
 * method is one handler call; calls are taken one at a time, so each
 * transaction runs alone.
 */
module Store {
  import opened Wrappers
  import opened Json
  import opened Numerals
  import opened JsText
  import opened Schema
  import opened StateReplace
  import opened ResetTimeSetting
  import opened ResetRule
  import opened UserInput

  /** The body and `ETag` of a state read. */
  datatype Snapshot = Snapshot(etag: string, queue: seq<QueueRow>, spots: seq<SpotRow>, lastReset: Option<int>)

  /** The answers of a state PUT: 200 with the new state, 412, or 500. */
  datatype PutOutcome = Replaced(state: Snapshot) | PreconditionFailed | PutFailed(fault: Fault)

  /** The answers of a user create: 201, 400, 409, or 500 when the id sequence is used up. */
  datatype CreateOutcome = Created(id: int, user: User) | Rejected(error: CreateError) | NameTaken | SequenceExhausted

  /** The answers of a user delete: 204, 404, 400, or 500 for an id `integer` cannot hold. */
  datatype DeleteOutcome = Deleted | NotFound | BadId | IdOutOfRange

  /** Some user has this name already: the `UNIQUE` constraint on `users.name`. */
  predicate NameInUse(users: map<int, User>, name: string) {
    exists id :: id in users && users[id].name == name
  }

  /** The spot rows ascend by id. */
  predicate SpotsInIdOrder(rows: seq<SpotRow>) {
    forall i, j :: 0 <= i < j < |rows| ==> CodePointLess(rows[i].id, rows[j].id)
  }

  /** `DELETE FROM queue WHERE user_id=$1`. */
  function RemoveUserFromQueue(queue: map<int, int>, id: int): (r: map<int, int>)
    ensures forall p :: p in r <==> p in queue && queue[p] != id
    ensures forall p :: p in r ==> r[p] == queue[p]
  {
    map p | p in queue && queue[p] != id :: queue[p]
  }

  /** `UPDATE spots SET user_id=NULL WHERE user_id=$1`. */
  function UnassignUser(spots: map<string, Spot>, id: int): (r: map<string, Spot>)
    ensures r.Keys == spots.Keys
    ensures forall k :: k in r ==>
      r[k] == if spots[k].userId == Some(id) then spots[k].(userId := None) else spots[k]
  {
    map k | k in spots :: if spots[k].userId == Some(id) then spots[k].(userId := None) else spots[k]
  }

  /** Removing a user nobody references leaves both tables as they are. */
  lemma CleanupOfUnreferencedUser(queue: map<int, int>, spots: map<string, Spot>, users: set<int>, id: int)
    requires TablesConsistent(queue, spots, users) && id !in users
    ensures RemoveUserFromQueue(queue, id) == queue
    ensures UnassignUser(spots, id) == spots
  {
    forall p | p in queue ensures queue[p] != id {
      assert queue[p] in users;
    }
    assert RemoveUserFromQueue(queue, id).Keys == queue.Keys;
    forall k | k in spots ensures spots[k].userId != Some(id) {
      if spots[k].userId.Some? {
        assert spots[k].userId.value in users;
      }
    }
    assert UnassignUser(spots, id).Keys == spots.Keys;
  }

  /** A new user id keeps every reference valid. */
  lemma AddUserKeepsTables(queue: map<int, int>, spots: map<string, Spot>, users: set<int>, id: int)
    requires TablesConsistent(queue, spots, users) && 1 <= id <= Int32Max
    ensures TablesConsistent(queue, spots, users + {id})
  {
  }

  /** Deleting a user after taking it out of the queue and off the spots keeps every reference valid. */
  lemma RemoveUserKeepsTables(queue: map<int, int>, spots: map<string, Spot>, users: set<int>, id: int)
    requires TablesConsistent(queue, spots, users)
    ensures TablesConsistent(RemoveUserFromQueue(queue, id), UnassignUser(spots, id), users - {id})
  {
  }

  /** A non-empty set of positions has a member. */
  lemma SomePosition(s: set<int>)
    requires s != {}
    ensures exists p :: p in s
  {
    if forall p :: p !in s {
      assert false;
    }
  }

  /** Some position in a non-empty set of positions is the smallest. */
  lemma {:induction false} SmallestPosition(s: set<int>) returns (m: int)
    requires s != {}
    ensures m in s && forall q :: q in s ==> m <= q
    decreases |s|
  {
    SomePosition(s);
    var p :| p in s;
    var others := s - {p};
    if others == {} {
      m := p;
      forall q | q in s
        ensures m <= q
      {
        assert q !in others;
      }
    } else {
      var n := SmallestPosition(others);
      m := if p < n then p else n;
      forall q | q in s
        ensures m <= q
      {
        if q != p {
          assert q in others;
        }
      }
    }
  }

  /**
   * Halfway through listing the queue: `rows` holds, ascending, exactly the
   * entries whose positions are not in `rest`, all below every position in `rest`.
   */
  ghost predicate ListedBelow(rows: seq<QueueRow>, queue: map<int, int>, rest: set<int>) {
    && rest <= queue.Keys
    && PositionsAscend(rows)
    && (forall i :: 0 <= i < |rows| ==>
          rows[i].position in queue && rows[i].position !in rest && queue[rows[i].position] == rows[i].userId)
    && (forall i, p :: 0 <= i < |rows| && p in rest ==> rows[i].position < p)
    && (forall p :: p in queue && p !in rest ==> exists i :: 0 <= i < |rows| && rows[i].position == p)
  }

  /** Moving the smallest remaining position to the end of the listing keeps it in order. */
  lemma ListedBelowStep(rows: seq<QueueRow>, queue: map<int, int>, rest: set<int>, p: int)
    requires ListedBelow(rows, queue, rest) && p in rest && forall q :: q in rest ==> p <= q
    ensures ListedBelow(rows + [QueueRow(p, queue[p])], queue, rest - {p})
  {
    var next := rows + [QueueRow(p, queue[p])];
    AppendAscends(rows, p, queue[p]);
    AppendCovers(rows, queue, rest, p);
    assert forall i :: 0 <= i < |rows| ==> next[i] == rows[i];
  }

  /** Appending a position above every listed one keeps the listing ascending. */
  lemma AppendAscends(rows: seq<QueueRow>, p: int, u: int)
    requires PositionsAscend(rows) && forall i :: 0 <= i < |rows| ==> rows[i].position < p
    ensures PositionsAscend(rows + [QueueRow(p, u)])
  {
    var next := rows + [QueueRow(p, u)];
    forall i, j | 0 <= i < j < |next|
      ensures next[i].position < next[j].position
    {
      assert next[i] == rows[i];
      if j < |rows| {
        assert next[j] == rows[j];
      }
    }
  }

  /** After the step every position outside the smaller rest is listed. */
  lemma AppendCovers(rows: seq<QueueRow>, queue: map<int, int>, rest: set<int>, p: int)
    requires p in queue
    requires forall q :: q in queue && q !in rest ==> exists i :: 0 <= i < |rows| && rows[i].position == q
    ensures forall q :: q in queue && q !in rest - {p} ==>
      exists i :: 0 <= i < |rows + [QueueRow(p, queue[p])]| && (rows + [QueueRow(p, queue[p])])[i].position == q
  {
    var next := rows + [QueueRow(p, queue[p])];
    forall q | q in queue && q !in rest - {p}
      ensures exists i :: 0 <= i < |next| && next[i].position == q
    {
      if q == p {
        assert next[|rows|].position == q;
      } else {
        var i :| 0 <= i < |rows| && rows[i].position == q;
        assert next[i].position == q;
      }
    }
  }

  /** Spot rows read in the seed order list the table. */
  lemma SeedOrderListing(rows: seq<SpotRow>, spots: map<string, Spot>)
    requires spots.Keys == SeedSpots.Keys && |rows| == |SeedOrder|
    requires forall i :: 0 <= i < |rows| ==>
      rows[i].id == SeedOrder[i] && spots[rows[i].id] == Spot(rows[i].kind, rows[i].caption, rows[i].userId)
    ensures ListsSpots(rows, spots)
  {
    forall i, j | 0 <= i < j < |rows|
      ensures rows[i].id != rows[j].id
    {
      SeedOrderDistinct();
      assert rows[i].id == SeedOrder[i] && rows[j].id == SeedOrder[j];
    }
    forall k | k in spots
      ensures exists i :: 0 <= i < |rows| && rows[i].id == k
    {
      SeedOrderCoversSeeds();
      assert k in SeedOrder;
      var i :| 0 <= i < |SeedOrder| && SeedOrder[i] == k;
      assert rows[i].id == k;
    }
  }

  /** Spot rows read in the seed order ascend by id. */
  lemma SeedOrderListingSorted(rows: seq<SpotRow>)
    requires |rows| == |SeedOrder| && forall i :: 0 <= i < |rows| ==> rows[i].id == SeedOrder[i]
    ensures SpotsInIdOrder(rows)
  {
    SeedOrderAscending();
  }

  class ChargingStore {
    /** `users`: id to name and preference. */
    var users: map<int, User>
    /** `spots`: id to type, label and assigned user. */
    var spots: map<string, Spot>
    /** `queue`: position to user id. */
    var queue: map<int, int>
    /** `state_meta.version`, the number the `ETag` shows. */
    var version: nat
    /** `state_meta.last_reset`, in seconds since the epoch. */
    var lastReset: Option<int>
    /** `settings.reset_time`. */
    var resetTime: string
    /** The next value of the `users.id` sequence. */
    var nextUserId: int

    /** The schema's constraints and the invariants the handlers keep. */
    ghost predicate Valid()
      reads this
    {
      && spots.Keys == SeedSpots.Keys
      && (forall k :: k in spots ==> spots[k].kind == SeedSpots[k].kind && spots[k].caption == SeedSpots[k].caption)
      && version >= 1
      && IsHHMM(resetTime)
      && 1 <= nextUserId
      && (forall id :: id in users ==> id < nextUserId)
      && (forall a, b :: a in users && b in users && users[a].name == users[b].name ==> a == b)
      && (forall id :: id in users ==> users[id].name != [] && NormalizedName(users[id].name))
      && TablesConsistent(queue, spots, users.Keys)
    }

    /** A fresh database after the schema script: the four spots, version 1, reset at 06:00. */
    constructor ()
      ensures Valid()
      ensures users == map[] && queue == map[] && spots == SeedSpots
      ensures version == 1 && lastReset == None && resetTime == DefaultResetTime && nextUserId == 1
    {
      users := map[];
      queue := map[];
      spots := InsertOrIgnore(map[], SeedSpots);
      version := 1;
      lastReset := None;
      resetTime := DefaultResetTime;
      nextUserId := 1;
      SeedingCreatesFourSpots();
      assert IsHHMM(DefaultResetTime);
    }

    /** `SELECT position, user_id FROM queue ORDER BY position`. */
    method ListQueue() returns (rows: seq<QueueRow>)
      requires Valid()
      ensures ListsQueue(rows, queue)
    {
      rows := [];
      var rest := queue.Keys;
      while rest != {}
        invariant ListedBelow(rows, queue, rest)
        decreases |rest|
      {
        ghost var smallest := SmallestPosition(rest);
        var p :| p in rest && forall q :: q in rest ==> p <= q;
        ListedBelowStep(rows, queue, rest, p);
        rows := rows + [QueueRow(p, queue[p])];
        rest := rest - {p};
      }
    }

    /** `SELECT id, type, label, user_id FROM spots ORDER BY id`. */
    method ListSpots() returns (rows: seq<SpotRow>)
      requires Valid()
      ensures ListsSpots(rows, spots) && SpotsInIdOrder(rows)
    {
      rows := [];
      for n := 0 to |SeedOrder|
        invariant |rows| == n
        invariant forall i :: 0 <= i < n ==>
          rows[i].id == SeedOrder[i] && spots[rows[i].id] == Spot(rows[i].kind, rows[i].caption, rows[i].userId)
      {
        SeedOrderCoversSeeds();
        var spot := spots[SeedOrder[n]];
        rows := rows + [SpotRow(SeedOrder[n], spot.kind, spot.caption, spot.userId)];
      }
      SeedOrderListing(rows, spots);
      SeedOrderListingSorted(rows);
    }

    /** GET of the state: the version as `ETag`, both tables in order, and the last reset. */
    method GetState() returns (snapshot: Snapshot)
      requires Valid()
      ensures snapshot.etag == Etag(version) && snapshot.lastReset == lastReset
      ensures ListsQueue(snapshot.queue, queue)
      ensures ListsSpots(snapshot.spots, spots) && SpotsInIdOrder(snapshot.spots)
    {
      var queueRows := ListQueue();
      var spotRows := ListSpots();
      snapshot := Snapshot(Etag(version), queueRows, spotRows, lastReset);
    }

    /**
     * PUT of the state: refused with 412 when `If-Match` names another
     * version; otherwise the queue and the spot assignments are replaced
     * statement by statement, the first failing statement rolls everything
     * back, and success bumps the version.
     */
    method PutState(ifMatch: Option<string>, body: Json) returns (outcome: PutOutcome)
      requires Valid()
      modifies this`queue, this`spots, this`version
      ensures Valid()
      ensures !IfMatchPasses(ifMatch, old(version)) ==>
        outcome == PreconditionFailed && queue == old(queue) && spots == old(spots) && version == old(version)
      ensures IfMatchPasses(ifMatch, old(version)) && ReplaceTables(old(queue), old(spots), old(users).Keys, body).Err? ==>
        && outcome == PutFailed(ReplaceTables(old(queue), old(spots), old(users).Keys, body).error)
        && queue == old(queue) && spots == old(spots) && version == old(version)
      ensures IfMatchPasses(ifMatch, old(version)) && ReplaceTables(old(queue), old(spots), old(users).Keys, body).Ok? ==>
        && (queue, spots) == ReplaceTables(old(queue), old(spots), old(users).Keys, body).value
        && version == old(version) + 1
        && outcome.Replaced? && outcome.state.etag == Etag(version) && outcome.state.lastReset == lastReset
        && ListsQueue(outcome.state.queue, queue) && ListsSpots(outcome.state.spots, spots)
        && SpotsInIdOrder(outcome.state.spots)
    {
      if !IfMatchPasses(ifMatch, version) {
        return PreconditionFailed;
      }
      var fault := ReplaceAll(body);
      if fault.Some? {
        return PutFailed(fault.value);
      }
      version := version + 1;
      var queueRows := ListQueue();
      var spotRows := ListSpots();
      outcome := Replaced(Snapshot(Etag(version), queueRows, spotRows, lastReset));
    }

    /**
     * The writes of a PUT inside its transaction: the queue, then the spot
     * assignments; a failing statement rolls both tables back.
     */
    method ReplaceAll(body: Json) returns (fault: Option<Fault>)
      requires Valid()
      modifies this`queue, this`spots
      ensures Valid()
      ensures fault.Some? ==>
        && ReplaceTables(old(queue), old(spots), users.Keys, body) == Err(fault.value)
        && queue == old(queue) && spots == old(spots)
      ensures fault.None? ==> ReplaceTables(old(queue), old(spots), users.Keys, body) == Ok((queue, spots))
    {
      var savedQueue, savedSpots := queue, spots;
      fault := WriteTables(body);
      if fault.Some? {
        queue, spots := savedQueue, savedSpots;
      } else {
        ReplaceTablesConsistent(savedQueue, savedSpots, users.Keys, body);
      }
    }

    /** The statements of a PUT up to the first failing one, before any rollback. */
    method WriteTables(body: Json) returns (fault: Option<Fault>)
      modifies this`queue, this`spots
      ensures fault.Some? ==> ReplaceTables(old(queue), old(spots), users.Keys, body) == Err(fault.value)
      ensures fault.None? ==> ReplaceTables(old(queue), old(spots), users.Keys, body) == Ok((queue, spots))
    {
      var savedQueue, savedSpots := queue, spots;
      match Field(body, "queue") {
        case Some(JArr(items)) =>
          fault := WriteQueue(items);
          if fault.Some? {
            return;
          }
        case _ =>
      }
      assert QueuePart(savedQueue, users.Keys, body) == Ok(queue);
      match Field(body, "spots") {
        case Some(JArr(items)) =>
          fault := WriteSpots(items);
          if fault.Some? {
            return;
          }
        case _ =>
      }
      fault := None;
    }

    /** `DELETE FROM queue` and the inserts of a PUT, in order, up to the first failing one. */
    method WriteQueue(items: seq<Json>) returns (fault: Option<Fault>)
      modifies this`queue
      ensures fault.None? ==> ReplaceQueue(items, users.Keys) == Ok(queue)
      ensures fault.Some? ==> ReplaceQueue(items, users.Keys) == Err(fault.value)
    {
      queue := map[];
      var i := 0;
      while i < |items|
        invariant 0 <= i <= |items|
        invariant ReplaceQueue(items[..i], users.Keys) == Ok(queue)
      {
        assert items[..i + 1][..i] == items[..i];
        if IsQueueItem(items[i]) {
          var inserted := InsertQueueRow(queue, items[i], users.Keys);
          if inserted.Err? {
            ReplaceQueueAborts(items, i + 1, users.Keys);
            return Some(inserted.error);
          }
          queue := inserted.value;
        }
        i := i + 1;
      }
      assert items[..i] == items;
      fault := None;
    }

    /** `UPDATE spots SET user_id=NULL` and the updates of a PUT, in order, up to the first failing one. */
    method WriteSpots(items: seq<Json>) returns (fault: Option<Fault>)
      modifies this`spots
      ensures fault.None? ==> ApplySpots(items, ClearAssignments(old(spots)), users.Keys) == Ok(spots)
      ensures fault.Some? ==> ApplySpots(items, ClearAssignments(old(spots)), users.Keys) == Err(fault.value)
    {
      spots := ClearAssignments(spots);
      var cleared := spots;
      var i := 0;
      while i < |items|
        invariant 0 <= i <= |items|
        invariant ApplySpots(items[..i], cleared, users.Keys) == Ok(spots)
      {
        assert items[..i + 1][..i] == items[..i];
        if IsSpotItem(items[i]) {
          var updated := AssignSpot(spots, items[i], users.Keys);
          if updated.Err? {
            ApplySpotsAborts(items, i + 1, cleared, users.Keys);
            return Some(updated.error);
          }
          spots := updated.value;
        }
        i := i + 1;
      }
      assert items[..i] == items;
      fault := None;
    }

    /**
     * The reset timer: when today's reset instant has passed and no reset
     * was recorded since, empty the queue, unassign every spot, record the
     * time and bump the version; otherwise change nothing.
     */
    method RunResetTimer(now: int) returns (performed: bool)
      requires Valid()
      modifies this`queue, this`spots, this`lastReset, this`version
      ensures Valid()
      ensures performed == ResetDue(old(resetTime), old(lastReset), now)
      ensures lastReset == LastResetAfter(old(resetTime), old(lastReset), now)
      ensures performed ==>
        queue == map[] && spots == ClearAssignments(old(spots)) && version == old(version) + 1
      ensures !performed ==> queue == old(queue) && spots == old(spots) && version == old(version)
    {
      performed := ResetDue(resetTime, lastReset, now);
      if performed {
        queue := map[];
        spots := ClearAssignments(spots);
        lastReset := Some(now);
        version := version + 1;
      }
    }

    /** GET of the settings: the stored reset time. */
    method GetSettings() returns (t: string)
      requires Valid()
      ensures t == resetTime && IsHHMM(t)
    {
      t := resetTime;
    }

    /** PUT of the settings: store and echo a well-formed time, or refuse with 400. */
    method PutSettings(value: Option<Json>) returns (stored: Option<string>)
      requires Valid()
      modifies this`resetTime
      ensures Valid()
      ensures stored == ValidateResetTime(value)
      ensures match stored
        case Some(t) => resetTime == t
        case None => resetTime == old(resetTime)
    {
      stored := ValidateResetTime(value);
      if stored.Some? {
        StoreResetTime(stored.value);
      }
    }

    /** The `UPDATE` of the settings row with a validated reset time. */
    method StoreResetTime(t: string)
      requires Valid() && IsHHMM(t)
      modifies this`resetTime
      ensures Valid() && resetTime == t
    {
      resetTime := t;
    }

    /**
     * POST of a user: validate, take the next id, and insert; a name already
     * present answers 409 and still uses up the id.
     */
    method CreateUser(rawName: Option<Json>, rawPref: Option<Json>) returns (outcome: CreateOutcome)
      requires Valid()
      modifies this`users, this`nextUserId
      ensures Valid()
      ensures match ValidateNewUser(rawName, rawPref)
        case Err(e) => outcome == Rejected(e) && users == old(users) && nextUserId == old(nextUserId)
        case Ok(user) =>
          if old(nextUserId) > Int32Max then
            outcome == SequenceExhausted && users == old(users) && nextUserId == old(nextUserId)
          else
            && nextUserId == old(nextUserId) + 1
            && (NameInUse(old(users), user.name) ==> outcome == NameTaken && users == old(users))
            && (!NameInUse(old(users), user.name) ==>
                  outcome == Created(old(nextUserId), user) && old(nextUserId) !in old(users)
                  && users == old(users)[old(nextUserId) := user])
    {
      match ValidateNewUser(rawName, rawPref)
      case Err(e) =>
        outcome := Rejected(e);
      case Ok(user) =>
        outcome := InsertUser(user);
    }

    /**
     * `INSERT INTO users (name, pref)`: the id comes from the sequence before
     * the unique check on the name, so a 409 still uses it up.
     */
    method InsertUser(user: User) returns (outcome: CreateOutcome)
      requires Valid() && user.name != [] && NormalizedName(user.name)
      modifies this`users, this`nextUserId
      ensures Valid()
      ensures old(nextUserId) > Int32Max ==> outcome == SequenceExhausted && users == old(users) && nextUserId == old(nextUserId)
      ensures old(nextUserId) <= Int32Max ==>
        && nextUserId == old(nextUserId) + 1
        && (NameInUse(old(users), user.name) ==> outcome == NameTaken && users == old(users))
        && (!NameInUse(old(users), user.name) ==>
              outcome == Created(old(nextUserId), user) && old(nextUserId) !in old(users)
              && users == old(users)[old(nextUserId) := user])
    {
      if nextUserId > Int32Max {
        return SequenceExhausted;
      }
      var id := nextUserId;
      nextUserId := nextUserId + 1;
      if NameInUse(users, user.name) {
        return NameTaken;
      }
      AddUserKeepsTables(queue, spots, users.Keys, id);
      assert users[id := user].Keys == users.Keys + {id};
      users := users[id := user];
      outcome := Created(id, user);
    }

    /**
     * DELETE of a user: check the id, take the user out of the queue and off
     * every spot, then delete the row (404 when there is none). The version
     * is not bumped.
     */
    method DeleteUser(idText: string) returns (outcome: DeleteOutcome)
      requires Valid()
      modifies this`users, this`queue, this`spots
      ensures Valid()
      ensures CheckUserId(idText) == InvalidId ==>
        outcome == BadId && users == old(users) && queue == old(queue) && spots == old(spots)
      ensures CheckUserId(idText) == UnbindableId ==>
        outcome == IdOutOfRange && users == old(users) && queue == old(queue) && spots == old(spots)
      ensures CheckUserId(idText).ValidId? ==>
        var id := CheckUserId(idText).id;
        && (outcome == Deleted <==> id in old(users))
        && (outcome == NotFound <==> id !in old(users))
        && users == old(users) - {id}
        && queue == RemoveUserFromQueue(old(queue), id)
        && spots == UnassignUser(old(spots), id)
        && (outcome == NotFound ==> users == old(users) && queue == old(queue) && spots == old(spots))
    {
      match CheckUserId(idText)
      case InvalidId => outcome := BadId;
      case UnbindableId => outcome := IdOutOfRange;
      case ValidId(id) =>
        var found := RemoveUser(id);
        outcome := if found then Deleted else NotFound;
    }

    /**
     * DELETE of a user as the handler is written: the query function answers
     * the array of rows, so `del.count` is undefined, the 404 test never
     * holds, and every id that parses and fits is answered 204.
     */
    method DeleteUserAsWritten(idText: string) returns (outcome: DeleteOutcome)
      requires Valid()
      modifies this`users, this`queue, this`spots
      ensures Valid()
      ensures CheckUserId(idText) == InvalidId ==>
        outcome == BadId && users == old(users) && queue == old(queue) && spots == old(spots)
      ensures CheckUserId(idText) == UnbindableId ==>
        outcome == IdOutOfRange && users == old(users) && queue == old(queue) && spots == old(spots)
      ensures CheckUserId(idText).ValidId? ==>
        var id := CheckUserId(idText).id;
        && outcome == Deleted
        && users == old(users) - {id}
        && queue == RemoveUserFromQueue(old(queue), id)
        && spots == UnassignUser(old(spots), id)
        && (id !in old(users) ==> users == old(users) && queue == old(queue) && spots == old(spots))
    {
      match CheckUserId(idText)
      case InvalidId => outcome := BadId;
      case UnbindableId => outcome := IdOutOfRange;
      case ValidId(id) =>
        var existed := RemoveUser(id);
        outcome := Deleted;
    }

    /**
     * `DELETE FROM queue WHERE user_id=$1`, `UPDATE spots SET user_id=NULL
     * WHERE user_id=$1` and `DELETE FROM users WHERE id=$1`.
     */
    method RemoveUser(id: int) returns (found: bool)
      requires Valid()
      modifies this`users, this`queue, this`spots
      ensures Valid()
      ensures found == (id in old(users))
      ensures users == old(users) - {id}
      ensures queue == RemoveUserFromQueue(old(queue), id)
      ensures spots == UnassignUser(old(spots), id)
      ensures !found ==> users == old(users) && queue == old(queue) && spots == old(spots)
    {
      if id !in users {
        CleanupOfUnreferencedUser(queue, spots, users.Keys, id);
        assert users - {id} == users;
      }
      RemoveUserKeepsTables(queue, spots, users.Keys, id);
      assert (users - {id}).Keys == users.Keys - {id};
      queue := RemoveUserFromQueue(queue, id);
      spots := UnassignUser(spots, id);
      found := id in users;
      users := users - {id};
    }
  }

  /**
   * On a fresh store, deleting user 7, which does not exist, is answered 204
   * as written and 404 once the row count is read; neither call changes a table.
   */
  method AbsentUserDeleteDiffers() returns (asWritten: DeleteOutcome, corrected: DeleteOutcome)
    ensures asWritten == Deleted && corrected == NotFound
  {
    CheckUserIdOfDecimal(7);
    var first := new ChargingStore();
    asWritten := first.DeleteUserAsWritten(Decimal(7));
    var second := new ChargingStore();
    corrected := second.DeleteUser(Decimal(7));
  }
}
