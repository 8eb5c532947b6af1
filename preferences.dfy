/** The notification preferences of the logged-in participant: reading the
    five flags, and the partial update that changes only the flags the
    request supplies. */
module NotificationController {
  import opened Common
  import opened Schema
  import Validation

  const NotFoundMessage: string := "Participant not found"
  const NothingToUpdateMessage: string := "No preferences to update"

  /** `getPreferences`: the five TINYINT columns, each coerced to a
      boolean. */
  function GetPreferences(ps: seq<Participant>, caller: Id): (r: Result<Preferences>)
    ensures r.Err? <==> forall p :: p in ps ==> p.id != caller
    ensures r.Err? ==> r.error == NotFoundMessage
    ensures r.Ok? ==> exists p :: p in ps && p.id == caller && p.prefs == r.value
  {
    match FindParticipant(ps, caller)
    case None => Err(NotFoundMessage)
    case Some(k) => assert ps[k] in ps; Ok(ps[k].prefs)
  }

  /** The five fields of the request body; a field the body leaves out is
      `Undefined`. */
  datatype PreferenceUpdate = PreferenceUpdate(
    smsEnabled: Value,
    notifyOnAssignment: Value,
    notifyOnWishlistUpdate: Value,
    notifyOnGameStart: Value,
    notifyReminders: Value)

  /** Some field is supplied (`!== undefined`). */
  predicate Supplies(u: PreferenceUpdate)
  {
    !u.smsEnabled.Undefined? || !u.notifyOnAssignment.Undefined? || !u.notifyOnWishlistUpdate.Undefined?
    || !u.notifyOnGameStart.Undefined? || !u.notifyReminders.Undefined?
  }

  /** One SET clause: a supplied value is stored as 1 when truthy and 0
      otherwise; an undefined one leaves the column as it is. */
  function SetFlag(old_: bool, v: Value): (r: bool)
    ensures v.Undefined? ==> r == old_
    ensures !v.Undefined? ==> (r <==> Truthy(v))
  {
    if v.Undefined? then old_ else Truthy(v)
  }

  function ApplyUpdate(prefs: Preferences, u: PreferenceUpdate): Preferences
  {
    Preferences(
      SetFlag(prefs.smsEnabled, u.smsEnabled),
      SetFlag(prefs.notifyOnAssignment, u.notifyOnAssignment),
      SetFlag(prefs.notifyOnWishlistUpdate, u.notifyOnWishlistUpdate),
      SetFlag(prefs.notifyOnGameStart, u.notifyOnGameStart),
      SetFlag(prefs.notifyReminders, u.notifyReminders))
  }

  /** `UPDATE participants SET ... WHERE id = ?` */
  function UpdateRows(ps: seq<Participant>, caller: Id, u: PreferenceUpdate): (r: seq<Participant>)
    ensures |r| == |ps|
    ensures forall k :: 0 <= k < |ps| ==>
      r[k] == if ps[k].id == caller then ps[k].(prefs := ApplyUpdate(ps[k].prefs, u)) else ps[k]
  {
    seq(|ps|, k requires 0 <= k < |ps| =>
      if ps[k].id == caller then ps[k].(prefs := ApplyUpdate(ps[k].prefs, u)) else ps[k])
  }

  datatype UpdateReply = Updated | Rejected(status: int, message: string)

  /** `updatePreferences`. With no field supplied the request is rejected
      and nothing changes. Otherwise only the caller's row changes, and in it
      only the preference flags: a flag the body leaves out keeps its value, a
      supplied one becomes its truthiness. */
  function UpdatePreferencesOf(ps: seq<Participant>, caller: Id, u: PreferenceUpdate): (out: (UpdateReply, seq<Participant>))
    ensures var (reply, r) := out;
      && (reply.Rejected? <==> !Supplies(u))
      && (reply.Rejected? ==> r == ps && reply == Rejected(400, NothingToUpdateMessage))
      && |r| == |ps|
      && (forall k :: 0 <= k < |ps| ==>
            && r[k].(prefs := ps[k].prefs) == ps[k]
            && (ps[k].id != caller ==> r[k] == ps[k]))
      && (reply.Updated? ==> forall k :: 0 <= k < |ps| && ps[k].id == caller ==>
            && (r[k].prefs.smsEnabled == if u.smsEnabled.Undefined? then ps[k].prefs.smsEnabled else Truthy(u.smsEnabled))
            && (r[k].prefs.notifyOnAssignment == if u.notifyOnAssignment.Undefined? then ps[k].prefs.notifyOnAssignment else Truthy(u.notifyOnAssignment))
            && (r[k].prefs.notifyOnWishlistUpdate == if u.notifyOnWishlistUpdate.Undefined? then ps[k].prefs.notifyOnWishlistUpdate else Truthy(u.notifyOnWishlistUpdate))
            && (r[k].prefs.notifyOnGameStart == if u.notifyOnGameStart.Undefined? then ps[k].prefs.notifyOnGameStart else Truthy(u.notifyOnGameStart))
            && (r[k].prefs.notifyReminders == if u.notifyReminders.Undefined? then ps[k].prefs.notifyReminders else Truthy(u.notifyReminders)))
  {
    if !Supplies(u) then (Rejected(400, NothingToUpdateMessage), ps)
    else (Updated, UpdateRows(ps, caller, u))
  }

  /** Sending back what `getPreferences` returned, as JSON booleans, leaves
      the row as it was. */
  lemma WriteBackIsNoOp(ps: seq<Participant>, caller: Id)
    requires SortedById(ps) && GetPreferences(ps, caller).Ok?
    ensures var p := GetPreferences(ps, caller).value;
      var u := PreferenceUpdate(Bool(p.smsEnabled), Bool(p.notifyOnAssignment), Bool(p.notifyOnWishlistUpdate),
                                Bool(p.notifyOnGameStart), Bool(p.notifyReminders));
      UpdatePreferencesOf(ps, caller, u).1 == ps
  {
    var p := GetPreferences(ps, caller).value;
    var u := PreferenceUpdate(Bool(p.smsEnabled), Bool(p.notifyOnAssignment), Bool(p.notifyOnWishlistUpdate),
                              Bool(p.notifyOnGameStart), Bool(p.notifyReminders));
    var r := UpdateRows(ps, caller, u);
    forall j | 0 <= j < |ps| ensures r[j] == ps[j] {
      if ps[j].id == caller {
        FindUnique(ps, j);
      }
    }
  }

  /** A string is truthy whatever it says: the body `{"smsEnabled": "false"}`
      passes the preference validator and then switches SMS on. (The
      preferences page sends JSON booleans.) */
  lemma StringFalseSwitchesOn(ps: seq<Participant>, caller: Id)
    ensures Validation.PreferenceErrors(Str("false"), Undefined, Undefined, Undefined, Undefined) == []
    ensures var u := PreferenceUpdate(Str("false"), Undefined, Undefined, Undefined, Undefined);
      forall k :: 0 <= k < |ps| && ps[k].id == caller ==> UpdatePreferencesOf(ps, caller, u).1[k].prefs.smsEnabled
  {
  }

  /** `updatePreferences` on the caller's row. */
  method UpdatePreferences(db: Database, caller: Id, u: PreferenceUpdate) returns (reply: UpdateReply)
    requires db.Valid()
    modifies db`participants
    ensures db.Valid()
    ensures (reply, db.participants) == UpdatePreferencesOf(old(db.participants), caller, u)
  {
    if !Supplies(u) {
      return Rejected(400, NothingToUpdateMessage);
    }
    var r := UpdateRows(db.participants, caller, u);
    assert forall k :: 0 <= k < |r| ==> r[k].id == db.participants[k].id;
    db.SetParticipants(r);
    reply := Updated;
  }
}
