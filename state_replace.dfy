/**
 * The state handler's logic: the If-Match comparison, the full replacement
 * of the queue and of the spot assignments that a PUT performs, and the
 * read that a GET returns. The table updates are specified here as
 * functions on values; `Store.ChargingStore.PutState` performs them in place.
 */
module StateReplace {
  import opened Wrappers
  import opened Json
  import opened Numerals
  import opened Schema

  /** Why a write transaction rolled back; the handler answers 500 for each. */
  datatype Fault =
    | InvalidInteger                     // a bound value PostgreSQL cannot read as an integer
    | IntegerOutOfRange                  // an integer outside the `integer` column range
    | DuplicatePosition(position: int)   // the primary key of `queue`
    | UnknownUser(userId: int)           // `REFERENCES users(id)`

  // ---------------------------------------------------------------------
  // Version tags

  /** `String(version)`: the entity tag a read hands out. */
  function Etag(version: nat): (tag: string)
    ensures tag != [] && AllDigits(tag) && DigitsValue(tag) == version
  {
    DigitsValueOfDecimal(version);
    Decimal(version)
  }

  /**
   * The precondition check of a PUT: an absent or empty If-Match header is
   * no precondition; otherwise its raw text must equal the version's text.
   */
  predicate IfMatchPasses(ifMatch: Option<string>, version: nat)
    ensures IfMatchPasses(ifMatch, version) && ifMatch.Some? && ifMatch.value != "" ==>
      AllDigits(ifMatch.value) && DigitsValue(ifMatch.value) == version
  {
    ifMatch.None? || ifMatch.value == "" || ifMatch.value == Etag(version)
  }

  /** A tag read at another version is refused: the lost-update guard. */
  lemma StaleTagRefused(read: nat, current: nat)
    requires read != current
    ensures !IfMatchPasses(Some(Etag(read)), current)
    ensures IfMatchPasses(Some(Etag(current)), current)
  {
    if Etag(read) == Etag(current) {
      DecimalInjective(read, current);
    }
  }

  /** The comparison is on raw text: a quoted tag or `*` never matches. */
  lemma QuotedOrWildcardRefused(version: nat)
    ensures !IfMatchPasses(Some("\"" + Etag(version) + "\""), version)
    ensures !IfMatchPasses(Some("*"), version)
  {
    var tag := Etag(version);
    assert ("\"" + tag + "\"")[0] == '"' && IsDigit(tag[0]);
    assert "*"[0] == '*';
  }

  // ---------------------------------------------------------------------
  // Values bound to integer columns

  /**
   * How PostgreSQL reads a value bound to an `integer` parameter.
   * node-postgres sends the value's text: a number or a signed digit
   * string is read, anything else is not an integer.
   */
  function Int4Param(j: Json): (r: Result<int, Fault>)
    ensures r.Ok? ==> InInt32(r.value)
    ensures j.JNum? && InInt32(j.n) ==> r == Ok(j.n)
  {
    match j
    case JNum(n) => if InInt32(n) then Ok(n) else Err(IntegerOutOfRange)
    case JStr(s) =>
      var negative := |s| > 0 && s[0] == '-';
      var digits := if |s| > 0 && (s[0] == '-' || s[0] == '+') then s[1..] else s;
      if digits == [] || !AllDigits(digits) then Err(InvalidInteger)
      else
        var magnitude: int := DigitsValue(digits);
        var v := if negative then -magnitude else magnitude;
        if InInt32(v) then Ok(v) else Err(IntegerOutOfRange)
    case _ => Err(InvalidInteger)
  }

  /** A number and its decimal text are read as the same integer. */
  lemma Int4ParamOfText(n: int)
    ensures Int4Param(JStr(IntText(n))) == Int4Param(JNum(n))
  {
    var m: nat := if n < 0 then -n else n;
    DigitsValueOfDecimal(m);
    if n < 0 {
      assert ("-" + Decimal(m))[1..] == Decimal(m);
    } else {
      assert !(Decimal(m)[0] == '-' || Decimal(m)[0] == '+');
    }
  }

  // ---------------------------------------------------------------------
  // Replacing the queue

  /** `item && typeof item.position === 'number' && item.user_id`. */
  predicate IsQueueItem(item: Json)
    ensures IsQueueItem(item) <==>
      && Field(item, "position").Some? && Field(item, "position").value.JNum?
      && Field(item, "user_id").Some? && Field(item, "user_id").value !in {JNull, JBool(false), JNum(0), JStr("")}
  {
    && item.JObj?
    && "position" in item.fields && item.fields["position"].JNum?
    && "user_id" in item.fields && Truthy(item.fields["user_id"])
  }

  function Position(item: Json): int
    requires IsQueueItem(item)
  {
    item.fields["position"].n
  }

  function QueueUser(item: Json): Result<int, Fault>
    requires IsQueueItem(item)
  {
    Int4Param(item.fields["user_id"])
  }

  /** One `INSERT INTO queue(position, user_id)`, with the errors it can raise. */
  function InsertQueueRow(queue: map<int, int>, item: Json, users: set<int>): (r: Result<map<int, int>, Fault>)
    requires IsQueueItem(item)
    ensures r.Ok? <==> QueueItemAccepted(item, users) && Position(item) !in queue
    ensures r.Ok? ==> r.value == queue[Position(item) := QueueUser(item).value]
    ensures InInt32(Position(item)) && QueueUser(item).Ok? && Position(item) in queue ==>
      r == Err(DuplicatePosition(Position(item)))
  {
    var position := Position(item);
    if !InInt32(position) then Err(IntegerOutOfRange)
    else match QueueUser(item)
      case Err(f) => Err(f)
      case Ok(u) =>
        if position in queue then Err(DuplicatePosition(position))
        else if u !in users then Err(UnknownUser(u))
        else Ok(queue[position := u])
  }

  /**
   * `DELETE FROM queue` and then one insert per well-formed item, in order;
   * the first failing insert aborts. Earlier queue rows play no part.
   */
  function ReplaceQueue(items: seq<Json>, users: set<int>): (r: Result<map<int, int>, Fault>)
    ensures r.Ok? ==> forall p :: p in r.value ==> InInt32(p) && r.value[p] in users
  {
    if items == [] then Ok(map[])
    else
      var last := items[|items| - 1];
      match ReplaceQueue(items[..|items| - 1], users)
      case Err(f) => Err(f)
      case Ok(queue) => if IsQueueItem(last) then InsertQueueRow(queue, last, users) else Ok(queue)
  }

  /** An item that fails the shape test is passed over: no insert, no error. */
  lemma SkipsMalformedQueueItem(items: seq<Json>, item: Json, users: set<int>)
    requires !IsQueueItem(item)
    ensures ReplaceQueue(items + [item], users) == ReplaceQueue(items, users)
  {
    assert (items + [item])[..|items|] == items;
  }

  /** An item the inserts accept: position and user fit `integer`, the user exists. */
  predicate QueueItemAccepted(item: Json, users: set<int>)
    requires IsQueueItem(item)
  {
    InInt32(Position(item)) && QueueUser(item).Ok? && QueueUser(item).value in users
  }

  predicate QueueItemsAccepted(items: seq<Json>, users: set<int>) {
    forall i :: 0 <= i < |items| && IsQueueItem(items[i]) ==> QueueItemAccepted(items[i], users)
  }

  predicate DistinctPositions(items: seq<Json>) {
    forall i, j :: 0 <= i < j < |items| && IsQueueItem(items[i]) && IsQueueItem(items[j]) ==>
      Position(items[i]) != Position(items[j])
  }

  function QueuePositions(items: seq<Json>): set<int> {
    set i | 0 <= i < |items| && IsQueueItem(items[i]) :: Position(items[i])
  }

  /** The positions of a sequence of items, one item at a time. */
  lemma QueuePositionsSnoc(items: seq<Json>)
    requires items != []
    ensures var n := |items|;
      QueuePositions(items) ==
        QueuePositions(items[..n - 1]) + if IsQueueItem(items[n - 1]) then {Position(items[n - 1])} else {}
  {
    var n := |items|;
    var pre := items[..n - 1];
    forall p | p in QueuePositions(items)
      ensures p in QueuePositions(pre) + if IsQueueItem(items[n - 1]) then {Position(items[n - 1])} else {}
    {
      var i :| 0 <= i < n && IsQueueItem(items[i]) && Position(items[i]) == p;
      if i < n - 1 {
        assert pre[i] == items[i];
      }
    }
    forall p | p in QueuePositions(pre) ensures p in QueuePositions(items) {
      var i :| 0 <= i < n - 1 && IsQueueItem(pre[i]) && Position(pre[i]) == p;
      assert items[i] == pre[i];
    }
  }

  /** Acceptance and distinct positions, one item at a time. */
  lemma QueueItemsOkSnoc(items: seq<Json>, users: set<int>)
    requires items != []
    ensures var n := |items|;
      var pre, last := items[..n - 1], items[n - 1];
      (QueueItemsAccepted(items, users) && DistinctPositions(items)) <==>
        && QueueItemsAccepted(pre, users) && DistinctPositions(pre)
        && (IsQueueItem(last) ==> QueueItemAccepted(last, users) && Position(last) !in QueuePositions(pre))
  {
    var n := |items|;
    var pre, last := items[..n - 1], items[n - 1];
    assert forall i :: 0 <= i < n - 1 ==> items[i] == pre[i];
    if IsQueueItem(last) && Position(last) in QueuePositions(pre) {
      var i :| 0 <= i < n - 1 && IsQueueItem(pre[i]) && Position(pre[i]) == Position(last);
      assert items[i] == pre[i];
      assert !DistinctPositions(items);
    }
  }

  /** A queue a PUT writes holds exactly the well-formed items; malformed ones are dropped. */
  lemma {:induction false} ReplaceQueueContents(items: seq<Json>, users: set<int>)
    requires ReplaceQueue(items, users).Ok?
    ensures var queue := ReplaceQueue(items, users).value;
      && queue.Keys == QueuePositions(items)
      && forall i :: 0 <= i < |items| && IsQueueItem(items[i]) ==>
           QueueUser(items[i]) == Ok(queue[Position(items[i])])
  {
    if items != [] {
      var n := |items|;
      var pre, last := items[..n - 1], items[n - 1];
      ReplaceQueueContents(pre, users);
      QueuePositionsSnoc(items);
      var before := ReplaceQueue(pre, users).value;
      var after := ReplaceQueue(items, users).value;
      forall i | 0 <= i < n && IsQueueItem(items[i])
        ensures QueueUser(items[i]) == Ok(after[Position(items[i])])
      {
        if i < n - 1 {
          assert items[i] == pre[i];
          assert Position(pre[i]) in before;
        }
      }
    }
  }

  /**
   * A PUT's queue replacement succeeds exactly when every well-formed item
   * is accepted and no two well-formed items share a position.
   */
  lemma {:induction false} ReplaceQueueSucceeds(items: seq<Json>, users: set<int>)
    ensures ReplaceQueue(items, users).Ok? <==> QueueItemsAccepted(items, users) && DistinctPositions(items)
  {
    if items != [] {
      var n := |items|;
      var pre := items[..n - 1];
      ReplaceQueueSucceeds(pre, users);
      QueueItemsOkSnoc(items, users);
      if ReplaceQueue(pre, users).Ok? {
        ReplaceQueueContents(pre, users);
      }
    }
  }

  // ---------------------------------------------------------------------
  // Replacing the spot assignments

  /** `s && s.id && (s.user_id === null || typeof s.user_id === 'number')`. */
  predicate IsSpotItem(item: Json)
    ensures IsSpotItem(item) <==>
      && Field(item, "id").Some? && Field(item, "id").value !in {JNull, JBool(false), JNum(0), JStr("")}
      && Field(item, "user_id").Some? && (Field(item, "user_id").value.JNull? || Field(item, "user_id").value.JNum?)
  {
    && item.JObj?
    && "id" in item.fields && Truthy(item.fields["id"])
    && "user_id" in item.fields && (item.fields["user_id"].JNull? || item.fields["user_id"].JNum?)
  }

  /** The assignment an item asks for: None for `null`. */
  function SpotUser(item: Json): Option<int>
    requires IsSpotItem(item)
  {
    var u := item.fields["user_id"];
    if u.JNull? then None else Some(u.n)
  }

  /**
   * The text bound to `WHERE id=$1`. Arrays and objects are sent as text
   * that begins with '{', which names no spot; they are None here.
   */
  function SpotKey(item: Json): (r: Option<string>)
    requires IsSpotItem(item)
    ensures r.Some? ==> r.value == Stringify(item.fields["id"]) && r.value != ""
    ensures r.None? <==> item.fields["id"].JArr? || item.fields["id"].JObj?
  {
    match item.fields["id"]
    case JStr(s) => Some(s)
    case JNum(n) => Some(IntText(n))
    case JBool(b) => Some(if b then "true" else "false")
    case _ => None
  }

  /** The item is well formed and its id names the spot `k`. */
  predicate Targets(item: Json, k: string) {
    IsSpotItem(item) && SpotKey(item) == Some(k)
  }

  /** `UPDATE spots SET user_id=NULL`: every spot unassigned, nothing else touched. */
  function ClearAssignments(spots: map<string, Spot>): (r: map<string, Spot>)
    ensures r.Keys == spots.Keys
    ensures forall k :: k in r ==>
      r[k].userId == None && r[k].kind == spots[k].kind && r[k].caption == spots[k].caption
  {
    map k | k in spots :: spots[k].(userId := None)
  }

  /** One `UPDATE spots SET user_id=$2 WHERE id=$1`, with the errors it can raise. */
  function AssignSpot(spots: map<string, Spot>, item: Json, users: set<int>): (r: Result<map<string, Spot>, Fault>)
    requires IsSpotItem(item)
    ensures r.Ok? <==> SpotItemAccepted(item, spots.Keys, users)
    ensures r.Ok? ==> r.value.Keys == spots.Keys && forall k :: k in spots ==>
      r.value[k] == if Targets(item, k) then spots[k].(userId := SpotUser(item)) else spots[k]
  {
    var u := SpotUser(item);
    if u.Some? && !InInt32(u.value) then Err(IntegerOutOfRange)
    else match SpotKey(item)
      case Some(k) =>
        if k !in spots then Ok(spots)
        else if u.Some? && u.value !in users then Err(UnknownUser(u.value))
        else Ok(spots[k := spots[k].(userId := u)])
      case None => Ok(spots)
  }

  /** The updates of a PUT, in order, from the given table; the first failing one aborts. */
  function ApplySpots(items: seq<Json>, spots: map<string, Spot>, users: set<int>): (r: Result<map<string, Spot>, Fault>)
    ensures r.Ok? ==> r.value.Keys == spots.Keys
  {
    if items == [] then Ok(spots)
    else
      var last := items[|items| - 1];
      match ApplySpots(items[..|items| - 1], spots, users)
      case Err(f) => Err(f)
      case Ok(current) => if IsSpotItem(last) then AssignSpot(current, last, users) else Ok(current)
  }

  /** An item that fails the shape test is passed over: no update, no error. */
  lemma SkipsMalformedSpotItem(items: seq<Json>, item: Json, spots: map<string, Spot>, users: set<int>)
    requires !IsSpotItem(item)
    ensures ApplySpots(items + [item], spots, users) == ApplySpots(items, spots, users)
  {
    assert (items + [item])[..|items|] == items;
  }

  /** An update the database accepts: the user fits `integer` and, if it hits a spot, exists. */
  predicate SpotItemAccepted(item: Json, ids: set<string>, users: set<int>)
    requires IsSpotItem(item)
  {
    var u := SpotUser(item);
    && (u.Some? ==> InInt32(u.value))
    && (u.Some? && SpotKey(item).Some? && SpotKey(item).value in ids ==> u.value in users)
  }

  predicate SpotItemsAccepted(items: seq<Json>, ids: set<string>, users: set<int>) {
    forall i :: 0 <= i < |items| && IsSpotItem(items[i]) ==> SpotItemAccepted(items[i], ids, users)
  }

  /** The assignment the last item naming `k` asks for, or `initial` when none does. */
  function LastAssignment(items: seq<Json>, k: string, initial: Option<int>): Option<int> {
    if items == [] then initial
    else if Targets(items[|items| - 1], k) then SpotUser(items[|items| - 1])
    else LastAssignment(items[..|items| - 1], k, initial)
  }

  /**
   * The spot table a PUT writes from `spots`: it succeeds exactly when every
   * well-formed item is accepted, keeps every spot's id, type and label, and
   * gives each spot the assignment of the last item naming it.
   */
  lemma {:induction false} ApplySpotsSpec(items: seq<Json>, spots: map<string, Spot>, users: set<int>)
    ensures ApplySpots(items, spots, users).Ok? <==> SpotItemsAccepted(items, spots.Keys, users)
    ensures ApplySpots(items, spots, users).Ok? ==>
      var r := ApplySpots(items, spots, users).value;
      && r.Keys == spots.Keys
      && (forall k :: k in r ==> r[k] == spots[k].(userId := LastAssignment(items, k, spots[k].userId)))
  {
    if items != [] {
      var n := |items|;
      var pre, last := items[..n - 1], items[n - 1];
      ApplySpotsSpec(pre, spots, users);
      assert forall i :: 0 <= i < n - 1 ==> items[i] == pre[i];
      assert SpotItemsAccepted(items, spots.Keys, users) <==>
        SpotItemsAccepted(pre, spots.Keys, users) && (IsSpotItem(last) ==> SpotItemAccepted(last, spots.Keys, users));
    }
  }

  /** Later items win: the last item naming a spot decides its assignment. */
  lemma {:induction false} LastAssignmentWins(items: seq<Json>, k: string, initial: Option<int>, i: nat)
    requires i < |items| && Targets(items[i], k)
    requires forall j :: i < j < |items| ==> !Targets(items[j], k)
    ensures LastAssignment(items, k, initial) == SpotUser(items[i])
  {
    if i < |items| - 1 {
      var pre := items[..|items| - 1];
      assert pre[i] == items[i];
      LastAssignmentWins(pre, k, initial, i);
    }
  }

  /** A spot no item names keeps its initial assignment. */
  lemma {:induction false} LastAssignmentUntouched(items: seq<Json>, k: string, initial: Option<int>)
    requires forall j :: 0 <= j < |items| ==> !Targets(items[j], k)
    ensures LastAssignment(items, k, initial) == initial
  {
    if items != [] {
      var pre := items[..|items| - 1];
      assert forall j :: 0 <= j < |pre| ==> pre[j] == items[j];
      LastAssignmentUntouched(pre, k, initial);
    }
  }

  // ---------------------------------------------------------------------
  // The whole PUT body

  /** The queue after the PUT: replaced when `body.queue` is an array, else untouched. */
  function QueuePart(queue: map<int, int>, users: set<int>, body: Json): Result<map<int, int>, Fault> {
    match Field(body, "queue")
    case Some(JArr(items)) => ReplaceQueue(items, users)
    case _ => Ok(queue)
  }

  /** The spots after the PUT: cleared and reassigned when `body.spots` is an array, else untouched. */
  function SpotsPart(spots: map<string, Spot>, users: set<int>, body: Json): Result<map<string, Spot>, Fault> {
    match Field(body, "spots")
    case Some(JArr(items)) => ApplySpots(items, ClearAssignments(spots), users)
    case _ => Ok(spots)
  }

  /** Both tables after a PUT whose precondition passed, or the fault that aborts it. */
  function ReplaceTables(queue: map<int, int>, spots: map<string, Spot>, users: set<int>, body: Json)
    : (r: Result<(map<int, int>, map<string, Spot>), Fault>)
    ensures r.Ok? ==> r.value.1.Keys == spots.Keys
    ensures r.Ok? && Field(body, "queue").Some? && Field(body, "queue").value.JArr? ==>
      forall p :: p in r.value.0 ==> InInt32(p) && r.value.0[p] in users
  {
    match QueuePart(queue, users, body)
    case Err(f) => Err(f)
    case Ok(newQueue) =>
      match SpotsPart(spots, users, body)
      case Err(f) => Err(f)
      case Ok(newSpots) => Ok((newQueue, newSpots))
  }

  /** A body with neither array leaves both tables as they are; only the version moves. */
  lemma KeepsTablesWithoutArrays(queue: map<int, int>, spots: map<string, Spot>, users: set<int>, body: Json)
    requires !(Field(body, "queue").Some? && Field(body, "queue").value.JArr?)
    requires !(Field(body, "spots").Some? && Field(body, "spots").value.JArr?)
    ensures ReplaceTables(queue, spots, users, body) == Ok((queue, spots))
  {
  }

  // ---------------------------------------------------------------------
  // What the statement-by-statement PUT relies on

  /** Once an insert fails, the later items are never reached: the failure is the outcome. */
  lemma {:induction false} ReplaceQueueAborts(items: seq<Json>, n: nat, users: set<int>)
    requires n <= |items| && ReplaceQueue(items[..n], users).Err?
    ensures ReplaceQueue(items, users) == ReplaceQueue(items[..n], users)
    decreases |items| - n
  {
    if n == |items| {
      assert items[..n] == items;
    } else {
      assert items[..n + 1][..n] == items[..n];
      ReplaceQueueAborts(items, n + 1, users);
    }
  }

  /** Once a spot update fails, the later items are never reached. */
  lemma {:induction false} ApplySpotsAborts(items: seq<Json>, n: nat, spots: map<string, Spot>, users: set<int>)
    requires n <= |items| && ApplySpots(items[..n], spots, users).Err?
    ensures ApplySpots(items, spots, users) == ApplySpots(items[..n], spots, users)
    decreases |items| - n
  {
    if n == |items| {
      assert items[..n] == items;
    } else {
      assert items[..n + 1][..n] == items[..n];
      ApplySpotsAborts(items, n + 1, spots, users);
    }
  }

  /** Successful spot updates assign only existing users. */
  lemma {:induction false} ApplySpotsReferences(items: seq<Json>, spots: map<string, Spot>, users: set<int>)
    requires forall k :: k in spots && spots[k].userId.Some? ==> spots[k].userId.value in users
    requires ApplySpots(items, spots, users).Ok?
    ensures var r := ApplySpots(items, spots, users).value;
      forall k :: k in r && r[k].userId.Some? ==> r[k].userId.value in users
  {
    if items != [] {
      ApplySpotsReferences(items[..|items| - 1], spots, users);
    }
  }

  /**
   * A PUT that succeeds keeps the foreign keys and the spot rows' ids,
   * types and labels: only the queue and the assignments change.
   */
  lemma ReplaceTablesConsistent(queue: map<int, int>, spots: map<string, Spot>, users: set<int>, body: Json)
    requires TablesConsistent(queue, spots, users)
    requires ReplaceTables(queue, spots, users, body).Ok?
    ensures var (q, s) := ReplaceTables(queue, spots, users, body).value;
      && TablesConsistent(q, s, users)
      && s.Keys == spots.Keys
      && (forall k :: k in s ==> s[k].kind == spots[k].kind && s[k].caption == spots[k].caption)
  {
    match Field(body, "queue") {
      case _ =>
    }
    match Field(body, "spots") {
      case Some(JArr(items)) =>
        ApplySpotsReferences(items, ClearAssignments(spots), users);
        ApplySpotsSpec(items, ClearAssignments(spots), users);
      case _ =>
    }
  }

  // ---------------------------------------------------------------------
  // Reads, and feeding a read back into a PUT

  /** Positions strictly ascending along the listing. */
  predicate PositionsAscend(rows: seq<QueueRow>) {
    forall i, j :: 0 <= i < j < |rows| ==> rows[i].position < rows[j].position
  }

  /** The queue rows a read returns: ascending by position, exactly the table. */
  predicate ListsQueue(rows: seq<QueueRow>, queue: map<int, int>) {
    && PositionsAscend(rows)
    && (forall i :: 0 <= i < |rows| ==> rows[i].position in queue && queue[rows[i].position] == rows[i].userId)
    && (forall p :: p in queue ==> exists i :: 0 <= i < |rows| && rows[i].position == p)
  }

  /** The spot rows a read returns: each spot once, with its columns. */
  predicate ListsSpots(rows: seq<SpotRow>, spots: map<string, Spot>) {
    && (forall i, j :: 0 <= i < j < |rows| ==> rows[i].id != rows[j].id)
    && (forall i :: 0 <= i < |rows| ==>
          rows[i].id in spots && spots[rows[i].id] == Spot(rows[i].kind, rows[i].caption, rows[i].userId))
    && (forall k :: k in spots ==> exists i :: 0 <= i < |rows| && rows[i].id == k)
  }

  /** The schema's `type` text of a spot kind. */
  function KindText(kind: SpotKind): string {
    match kind
    case TeslaCharger => "tesla"
    case ChargePointCharger => "chargepoint"
  }

  function QueueItemOf(row: QueueRow): Json {
    JObj(map["position" := JNum(row.position), "user_id" := JNum(row.userId)])
  }

  function SpotItemOf(row: SpotRow): Json {
    JObj(map[
      "id" := JStr(row.id),
      "type" := JStr(KindText(row.kind)),
      "label" := JStr(row.caption),
      "user_id" := if row.userId.None? then JNull else JNum(row.userId.value)
    ])
  }

  function QueueItems(rows: seq<QueueRow>): (items: seq<Json>)
    ensures |items| == |rows| && forall i :: 0 <= i < |rows| ==> items[i] == QueueItemOf(rows[i])
  {
    seq(|rows|, i requires 0 <= i < |rows| => QueueItemOf(rows[i]))
  }

  function SpotItems(rows: seq<SpotRow>): (items: seq<Json>)
    ensures |items| == |rows| && forall i :: 0 <= i < |rows| ==> items[i] == SpotItemOf(rows[i])
  {
    seq(|rows|, i requires 0 <= i < |rows| => SpotItemOf(rows[i]))
  }

  /** The JSON body of a read's `queue` and `spots`, as a client would send it back. */
  function SnapshotBody(queue: seq<QueueRow>, spots: seq<SpotRow>): Json {
    JObj(map["queue" := JArr(QueueItems(queue)), "spots" := JArr(SpotItems(spots))])
  }

  /** The constraints the schema keeps on the queue and spot tables. */
  predicate TablesConsistent(queue: map<int, int>, spots: map<string, Spot>, users: set<int>) {
    && (forall id :: id in users ==> 1 <= id <= Int32Max)
    && (forall p :: p in queue ==> InInt32(p) && queue[p] in users)
    && (forall k :: k in spots ==> k != "" && (spots[k].userId.Some? ==> spots[k].userId.value in users))
  }

  /** Writing back what a read returned succeeds and leaves both tables as they were. */
  lemma RoundTrip(queue: map<int, int>, spots: map<string, Spot>, users: set<int>,
                  queueRows: seq<QueueRow>, spotRows: seq<SpotRow>)
    requires TablesConsistent(queue, spots, users)
    requires ListsQueue(queueRows, queue) && ListsSpots(spotRows, spots)
    ensures ReplaceTables(queue, spots, users, SnapshotBody(queueRows, spotRows)) == Ok((queue, spots))
  {
    var body := SnapshotBody(queueRows, spotRows);
    assert Field(body, "queue") == Some(JArr(QueueItems(queueRows)));
    assert Field(body, "spots") == Some(JArr(SpotItems(spotRows)));
    RoundTripQueue(queue, users, queueRows);
    RoundTripSpots(spots, users, spotRows);
    assert QueuePart(queue, users, body) == Ok(queue);
    assert SpotsPart(spots, users, body) == Ok(spots);
  }

  lemma RoundTripQueue(queue: map<int, int>, users: set<int>, rows: seq<QueueRow>)
    requires forall id :: id in users ==> 1 <= id <= Int32Max
    requires forall p :: p in queue ==> InInt32(p) && queue[p] in users
    requires ListsQueue(rows, queue)
    ensures ReplaceQueue(QueueItems(rows), users) == Ok(queue)
  {
    var items := QueueItems(rows);
    QueueItemsRead(queue, users, rows);
    ReplaceQueueSucceeds(items, users);
    assert ReplaceQueue(items, users).Ok?;
    ReplaceQueueContents(items, users);
    var r := ReplaceQueue(items, users).value;
    assert r.Keys == QueuePositions(items);
    assert forall i :: 0 <= i < |items| ==> r[rows[i].position] == rows[i].userId;
    SameQueue(r, queue, rows);
  }

  /** Two tables that a read lists with the same rows are equal. */
  lemma SameQueue(r: map<int, int>, queue: map<int, int>, rows: seq<QueueRow>)
    requires ListsQueue(rows, queue)
    requires r.Keys == set i | 0 <= i < |rows| :: rows[i].position
    requires forall i :: 0 <= i < |rows| ==> r[rows[i].position] == rows[i].userId
    ensures r == queue
  {
    forall p | p in queue ensures p in r && r[p] == queue[p] {
      var i :| 0 <= i < |rows| && rows[i].position == p;
    }
  }

  /** Each item built from a read row is well formed and accepted, and they have distinct positions. */
  lemma QueueItemsRead(queue: map<int, int>, users: set<int>, rows: seq<QueueRow>)
    requires forall id :: id in users ==> 1 <= id <= Int32Max
    requires forall p :: p in queue ==> InInt32(p) && queue[p] in users
    requires ListsQueue(rows, queue)
    ensures var items := QueueItems(rows);
      && (forall i :: 0 <= i < |items| ==>
            IsQueueItem(items[i]) && Position(items[i]) == rows[i].position &&
            QueueUser(items[i]) == Ok(rows[i].userId))
      && QueueItemsAccepted(items, users) && DistinctPositions(items)
  {
    var items := QueueItems(rows);
    forall i | 0 <= i < |items|
      ensures IsQueueItem(items[i]) && Position(items[i]) == rows[i].position
      ensures QueueUser(items[i]) == Ok(rows[i].userId)
    {
      assert rows[i].userId in users;
      assert Truthy(JNum(rows[i].userId));
    }
  }

  lemma RoundTripSpots(spots: map<string, Spot>, users: set<int>, rows: seq<SpotRow>)
    requires forall id :: id in users ==> 1 <= id <= Int32Max
    requires forall k :: k in spots ==> k != "" && (spots[k].userId.Some? ==> spots[k].userId.value in users)
    requires ListsSpots(rows, spots)
    ensures ApplySpots(SpotItems(rows), ClearAssignments(spots), users) == Ok(spots)
  {
    var items := SpotItems(rows);
    var start := ClearAssignments(spots);
    SpotItemsRead(spots, users, rows);
    ApplySpotsSpec(items, start, users);
    assert ApplySpots(items, start, users).Ok?;
    RestoredSpots(spots, rows, items, start, ApplySpots(items, start, users).value);
  }

  /** Applying a read's items to the cleared table gives every spot back its assignment. */
  lemma RestoredSpots(spots: map<string, Spot>, rows: seq<SpotRow>, items: seq<Json>,
                      start: map<string, Spot>, r: map<string, Spot>)
    requires ListsSpots(rows, spots) && ItemsOfRows(items, rows)
    requires start == ClearAssignments(spots)
    requires r.Keys == start.Keys
    requires forall k :: k in r ==> r[k] == start[k].(userId := LastAssignment(items, k, start[k].userId))
    ensures r == spots
  {
    forall k | k in spots ensures r[k] == spots[k] {
      var i :| 0 <= i < |rows| && rows[i].id == k;
      RestoredSpot(spots, rows, items, start, r, k, i);
    }
    assert r.Keys == spots.Keys;
  }

  /** The spot of one row gets back the assignment the row shows. */
  lemma RestoredSpot(spots: map<string, Spot>, rows: seq<SpotRow>, items: seq<Json>,
                     start: map<string, Spot>, r: map<string, Spot>, k: string, i: nat)
    requires ListsSpots(rows, spots) && ItemsOfRows(items, rows)
    requires i < |rows| && rows[i].id == k
    requires start == ClearAssignments(spots) && k in r && r.Keys == start.Keys
    requires r[k] == start[k].(userId := LastAssignment(items, k, start[k].userId))
    ensures r[k] == spots[k]
  {
    LastRowWins(rows, items, k, i);
    SpotUnchanged(spots[k], start[k], r[k], LastAssignment(items, k, None));
  }

  lemma SpotUnchanged(spot: Spot, cleared: Spot, written: Spot, assignment: Option<int>)
    requires cleared.kind == spot.kind && cleared.caption == spot.caption
    requires written == cleared.(userId := assignment) && assignment == spot.userId
    ensures written == spot
  {
  }

  /** In items built from a read, the row of spot `k` is the only one naming it. */
  lemma LastRowWins(rows: seq<SpotRow>, items: seq<Json>, k: string, i: nat)
    requires i < |rows| && rows[i].id == k
    requires forall i, j :: 0 <= i < j < |rows| ==> rows[i].id != rows[j].id
    requires |items| == |rows|
    requires forall j :: 0 <= j < |items| ==> IsSpotItem(items[j]) && SpotKey(items[j]) == Some(rows[j].id)
    ensures LastAssignment(items, k, None) == SpotUser(items[i])
  {
    forall j | i < j < |items| ensures !Targets(items[j], k) {
      assert rows[j].id != rows[i].id;
    }
    LastAssignmentWins(items, k, None, i);
  }

  /** Each item is well formed and carries the spot and the assignment of the row at its index. */
  predicate ItemsOfRows(items: seq<Json>, rows: seq<SpotRow>) {
    && |items| == |rows|
    && forall j :: 0 <= j < |items| ==>
         IsSpotItem(items[j]) && SpotKey(items[j]) == Some(rows[j].id) && SpotUser(items[j]) == rows[j].userId
  }

  /** Each item built from a read row is well formed, names its spot, and is accepted. */
  lemma SpotItemsRead(spots: map<string, Spot>, users: set<int>, rows: seq<SpotRow>)
    requires forall id :: id in users ==> 1 <= id <= Int32Max
    requires forall k :: k in spots ==> k != "" && (spots[k].userId.Some? ==> spots[k].userId.value in users)
    requires ListsSpots(rows, spots)
    ensures var items := SpotItems(rows);
      ItemsOfRows(items, rows) && SpotItemsAccepted(items, spots.Keys, users)
  {
    var items := SpotItems(rows);
    forall i | 0 <= i < |items|
      ensures IsSpotItem(items[i]) && SpotKey(items[i]) == Some(rows[i].id) && SpotUser(items[i]) == rows[i].userId
      ensures SpotItemAccepted(items[i], spots.Keys, users)
    {
      assert rows[i].id in spots;
    }
  }
}
