/**
 * The users handler's request checks: the name and preference of a new
 * user, and the id a delete names. The table updates are in
 * `Store.ChargingStore.CreateUser` and `Store.ChargingStore.DeleteUser`.
 */
module UserInput {
  import opened Wrappers
  import opened Json
  import opened JsText
  import opened Numerals
  import opened Schema

  /** The two 400 answers of a create. */
  datatype CreateError = NameRequired | InvalidPref

  /** The `pref` column's text of a preference. */
  function PrefText(p: Pref): string {
    match p
    case Both => "both"
    case Tesla => "tesla"
    case ChargePoint => "chargepoint"
  }

  /**
   * `pref = 'both'` in the destructuring, then the membership test against
   * the three texts: an absent field means `both`; anything present must be
   * exactly one of the texts (a `null` is present and is refused).
   */
  function ParsePref(v: Option<Json>): (r: Option<Pref>)
    ensures v.None? ==> r == Some(Both)
    ensures r.Some? && v.Some? ==> v.value == JStr(PrefText(r.value))
  {
    match v
    case None => Some(Both)
    case Some(JStr(s)) =>
      if s == "both" then Some(Both)
      else if s == "tesla" then Some(Tesla)
      else if s == "chargepoint" then Some(ChargePoint)
      else None
    case Some(_) => None
  }

  /** Every preference's own text is accepted as that preference. */
  lemma ParsePrefOfText(p: Pref)
    ensures ParsePref(Some(JStr(PrefText(p)))) == Some(p)
  {
  }

  /**
   * A create's validation in the handler's order: the name
   * (`String(rawName || '')`, trimmed, runs of white space made one space)
   * must be non-empty, then the preference must be valid.
   */
  function ValidateNewUser(rawName: Option<Json>, rawPref: Option<Json>): (r: Result<User, CreateError>)
    ensures r.Ok? ==> r.value.name != [] && NormalizedName(r.value.name)
    ensures r.Ok? ==> Some(r.value.pref) == ParsePref(rawPref)
  {
    var name := NormalizeName(TextOrEmpty(rawName));
    if name == [] then Err(NameRequired)
    else
      match ParsePref(rawPref)
      case None => Err(InvalidPref)
      case Some(p) => Ok(User(name, p))
  }

  /** The name is refused exactly when its text is all white space, and is checked before the preference. */
  lemma ValidateNewUserOutcome(rawName: Option<Json>, rawPref: Option<Json>)
    ensures ValidateNewUser(rawName, rawPref) == Err(NameRequired) <==> AllSpace(TextOrEmpty(rawName))
    ensures ValidateNewUser(rawName, rawPref) == Err(InvalidPref) <==>
      !AllSpace(TextOrEmpty(rawName)) && ParsePref(rawPref).None?
  {
    NormalizeNameEmpty(TextOrEmpty(rawName));
  }

  /** A normalised name with a valid preference is accepted unchanged. */
  lemma AcceptsNormalizedName(name: string, p: Pref)
    requires NormalizedName(name) && name != []
    ensures ValidateNewUser(Some(JStr(name)), Some(JStr(PrefText(p)))) == Ok(User(name, p))
  {
    assert TextOrEmpty(Some(JStr(name))) == name;
    NormalizedNameFixed(name);
    ParsePrefOfText(p);
  }

  /** The three answers a delete's id leads to before any table is touched. */
  datatype IdCheck = InvalidId | UnbindableId | ValidId(id: int)

  /**
   * `parseInt(idStr, 10)` and `if (!id)`: no digits (NaN) or zero is the 400
   * answer; a number outside `integer` makes the database refuse the
   * parameter (the 500 answer); anything else names a row to delete.
   */
  function CheckUserId(idText: string): (r: IdCheck)
    ensures r == InvalidId <==> JsParseInt(idText).None? || JsParseInt(idText) == Some(0)
    ensures r.ValidId? ==> r.id != 0 && InInt32(r.id) && JsParseInt(idText) == Some(r.id)
    ensures r == UnbindableId ==> JsParseInt(idText).Some? && !InInt32(JsParseInt(idText).value)
  {
    match JsParseInt(idText)
    case None => InvalidId
    case Some(id) =>
      if id == 0 then InvalidId
      else if !InInt32(id) then UnbindableId
      else ValidId(id)
  }

  /** The decimal text of any id a user can have names that user. */
  lemma CheckUserIdOfDecimal(id: nat)
    requires 1 <= id <= Int32Max
    ensures CheckUserId(Decimal(id)) == ValidId(id)
  {
    JsParseIntOfDecimal(id);
  }

  /** A path segment with padding or trailing text after the digits still names the user. */
  lemma CheckUserIdReadsLeadingNumber(pre: string, id: nat, rest: string)
    requires 1 <= id <= Int32Max
    requires AllSpace(pre) && (rest == [] || !IsDigit(rest[0]))
    ensures CheckUserId(pre + Decimal(id) + rest) == ValidId(id)
  {
    JsParseIntReadsLeadingNumber(pre, id, rest);
  }
}
