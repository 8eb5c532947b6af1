/** Notification routing: which participant wants which message type, who
    each notification goes to, the text it carries and the fixed priority it
    is queued at. Each `notify...` operation is a plan computed from the
    tables (a function) and a method that enqueues what the plan says. */
module NotificationService {
  import opened Common
  import opened Schema
  import opened SmsTemplates
  import opened SmsQueueService

  const AssignmentPriority: int := 2
  const WishListUpdatePriority: int := 3
  const GameStartPriority: int := 3
  const WishListReminderPriority: int := 5
  const ShoppingReminderPriority: int := 4
  const ExchangeDayPriority: int := 1
  const TestPriority: int := 1

  /** A wish-list reminder waits a day after the draw. */
  const ReminderDelay: int := 24 * SecondsPerHour

  const DisabledMessage: string := "Notification disabled by user preferences"
  const NoSantaMessage: string := "No Secret Santa assigned yet"
  const NotFoundError: string := "Participant not found"

  // ---------------------------------------------------------------------
  // shouldReceiveNotification

  /** The preference flag that governs a message type; `None` for a type
      no flag admits. */
  function FlagFor(prefs: Preferences, kind: string): (r: Option<bool>)
    ensures r.Some? <==> kind in {"assignment", "wishlist_update", "game_start",
                                  "wishlist_reminder", "shopping_reminder", "exchange_day"}
  {
    match kind
    case "assignment" => Some(prefs.notifyOnAssignment)
    case "wishlist_update" => Some(prefs.notifyOnWishlistUpdate)
    case "game_start" => Some(prefs.notifyOnGameStart)
    case "wishlist_reminder" => Some(prefs.notifyReminders)
    case "shopping_reminder" => Some(prefs.notifyReminders)
    case "exchange_day" => Some(prefs.notifyReminders)
    case _ => None
  }

  /** The switch of `shouldReceiveNotification` on one row. */
  predicate RowWants(p: Participant, kind: string)
  {
    p.prefs.smsEnabled && FlagFor(p.prefs, kind) == Some(true)
  }

  /** `shouldReceiveNotification(participantId, type)` */
  predicate ShouldReceive(ps: seq<Participant>, id: Id, kind: string)
  {
    match FindParticipant(ps, id)
    case None => false
    case Some(k) => RowWants(ps[k], kind)
  }

  /** A missing participant, or one with SMS off, receives nothing; otherwise
      each type follows its own flag, the three reminders share one, and an
      unknown type is never sent. */
  lemma ShouldReceiveMeaning(ps: seq<Participant>, id: Id, kind: string)
    requires SortedById(ps)
    ensures ShouldReceive(ps, id, kind) <==>
      exists p :: p in ps && p.id == id && p.prefs.smsEnabled &&
        match kind
        case "assignment" => p.prefs.notifyOnAssignment
        case "wishlist_update" => p.prefs.notifyOnWishlistUpdate
        case "game_start" => p.prefs.notifyOnGameStart
        case "wishlist_reminder" => p.prefs.notifyReminders
        case "shopping_reminder" => p.prefs.notifyReminders
        case "exchange_day" => p.prefs.notifyReminders
        case _ => false
  {
    var found := FindParticipant(ps, id);
    if found.Some? {
      var k := found.value;
      assert ps[k] in ps;
      forall p | p in ps && p.id == id ensures p == ps[k] {
        var j :| 0 <= j < |ps| && ps[j] == p;
        FindUnique(ps, j);
      }
    }
  }

  /** Turning SMS off silences every type. */
  lemma SmsOffSilences(ps: seq<Participant>, id: Id, kind: string)
    requires forall p :: p in ps && p.id == id ==> !p.prefs.smsEnabled
    ensures !ShouldReceive(ps, id, kind)
  {
    var found := FindParticipant(ps, id);
    if found.Some? {
      assert ps[found.value] in ps;
    }
  }

  // ---------------------------------------------------------------------
  // What a notification enqueues

  /** One message to enqueue: its participant, number and text, or the error
      `getMessage` throws for it. */
  datatype Send = Send(participant: Id, phone: string, body: Result<string>)

  /** The plan of a single notification: nothing (with the reason returned
      to the caller), an error, or one message. */
  datatype Plan = Skip(message: string) | Abort(error: string) | One(participant: Id, phone: string, body: string)

  /** What a notification resolves to: `queueSMS`'s own result, the
      `{success: true, message}` of a skipped one, the counts of a broadcast, or
      `{success: false, error}`. */
  datatype Outcome =
    | Enqueued(queueId: Id)
    | Skipped(message: string)
    | Broadcast(queued: nat, total: nat)
    | Failed(error: string)

  /** A `getMessage` result turned into a plan: the throw is caught by the
      notification and returned as its error. */
  function OneMessage(participant: Id, phone: string, body: Result<string>): (r: Plan)
    ensures r.Abort? <==> body.Err?
    ensures body.Ok? ==> r == One(participant, phone, body.value)
  {
    match body
    case Err(e) => Abort(e)
    case Ok(m) => One(participant, phone, m)
  }

  /** The number of messages a broadcast enqueues before it meets the first
      text `getMessage` refused. */
  function OkPrefix(sends: seq<Send>): (k: nat)
    ensures k <= |sends|
    ensures forall j :: 0 <= j < k ==> sends[j].body.Ok?
    ensures k < |sends| ==> sends[k].body.Err?
    decreases |sends|
  {
    if sends == [] || sends[0].body.Err? then 0 else 1 + OkPrefix(sends[1..])
  }

  /** The queue rows a run of accepted sends inserts, with consecutive ids
      from `firstId`, all scheduled for `now`. */
  function EntriesOf(sends: seq<Send>, firstId: Id, kind: string, priority: int, now: Time): (r: seq<QueueEntry>)
    requires forall j :: 0 <= j < |sends| ==> sends[j].body.Ok?
    ensures |r| == |sends|
    ensures forall j :: 0 <= j < |sends| ==>
      r[j] == NewEntry(firstId + j, sends[j].participant, sends[j].phone, kind, sends[j].body.value, priority, now)
  {
    seq(|sends|, j requires 0 <= j < |sends| =>
      NewEntry(firstId + j, sends[j].participant, sends[j].phone, kind, sends[j].body.value, priority, now))
  }

  /** What a broadcast returns: every message is enqueued, or the first
      refused text aborts it. */
  function BroadcastOutcome(sends: seq<Send>): (r: Outcome)
    ensures r.Broadcast? <==> OkPrefix(sends) == |sends|
    ensures r.Broadcast? ==> r.queued == r.total == |sends|
    ensures r.Failed? ==> r.error == sends[OkPrefix(sends)].body.error
    ensures r.Broadcast? || r.Failed?
  {
    var k := OkPrefix(sends);
    if k < |sends| then Failed(sends[k].body.error) else Broadcast(|sends|, |sends|)
  }

  /** The queue rows a single plan inserts. */
  function PlanEntries(plan: Plan, firstId: Id, kind: string, priority: int, now: Time): (r: seq<QueueEntry>)
    ensures |r| == (if plan.One? then 1 else 0)
    ensures plan.One? ==> r == [NewEntry(firstId, plan.participant, plan.phone, kind, plan.body, priority, now)]
  {
    if plan.One? then [NewEntry(firstId, plan.participant, plan.phone, kind, plan.body, priority, now)] else []
  }

  /** What a single notification returns. */
  function PlanOutcome(plan: Plan, firstId: Id): (r: Outcome)
    ensures plan.Skip? <==> r.Skipped?
    ensures plan.Abort? <==> r.Failed?
    ensures plan.One? <==> r == Enqueued(firstId)
  {
    match plan
    case Skip(m) => Skipped(m)
    case Abort(e) => Failed(e)
    case One(_, _, _) => Enqueued(firstId)
  }

  /** Enqueues what a single plan says. */
  method QueuePlan(db: Database, plan: Plan, kind: string, priority: int, now: Time) returns (r: Outcome)
    requires db.Valid()
    modifies db`queue, db`nextQueueId
    ensures db.Valid()
    ensures db.queue == old(db.queue) + PlanEntries(plan, old(db.nextQueueId), kind, priority, now)
    ensures db.nextQueueId == old(db.nextQueueId) + |PlanEntries(plan, old(db.nextQueueId), kind, priority, now)|
    ensures r == PlanOutcome(plan, old(db.nextQueueId))
  {
    match plan
    case Skip(m) => r := Skipped(m);
    case Abort(e) => r := Failed(e);
    case One(participant, phone, body) =>
      var id := QueueSms(db, participant, phone, kind, body, priority, now);
      r := Enqueued(id);
  }

  /** The loop of the broadcasts: enqueue each message in turn; a refused
      text throws out of the loop, leaving the messages before it queued. */
  method QueueAll(db: Database, sends: seq<Send>, kind: string, priority: int, now: Time) returns (r: Outcome)
    requires db.Valid()
    modifies db`queue, db`nextQueueId
    ensures db.Valid()
    ensures db.queue == old(db.queue) + EntriesOf(sends[..OkPrefix(sends)], old(db.nextQueueId), kind, priority, now)
    ensures db.nextQueueId == old(db.nextQueueId) + OkPrefix(sends)
    ensures r == BroadcastOutcome(sends)
  {
    ghost var q0, id0 := db.queue, db.nextQueueId;
    var queued := 0;
    var i := 0;
    while i < |sends|
      invariant 0 <= i <= OkPrefix(sends)
      invariant queued == i
      invariant db.Valid()
      invariant db.nextQueueId == id0 + i
      invariant db.queue == q0 + EntriesOf(sends[..i], id0, kind, priority, now)
    {
      var s := sends[i];
      if s.body.Err? {
        return Failed(s.body.error);
      }
      var id := QueueSms(db, s.participant, s.phone, kind, s.body.value, priority, now);
      assert EntriesOf(sends[..i + 1], id0, kind, priority, now)
        == EntriesOf(sends[..i], id0, kind, priority, now) + [NewEntry(id, s.participant, s.phone, kind, s.body.value, priority, now)];
      queued := queued + 1;
      i := i + 1;
    }
    assert sends[..i] == sends[..OkPrefix(sends)];
    r := Broadcast(queued, |sends|);
  }

  // ---------------------------------------------------------------------
  // notifyAssignment

  function NameData(name: string): TemplateData
  {
    TemplateData(None, Some(name), None, None)
  }

  /** `notifyAssignment(participantId, recipientName)`. The source's
      "Participant not found" throw cannot happen: the preference check has
      already returned false for a missing participant. */
  function AssignmentPlan(ps: seq<Participant>, id: Id, recipientName: string, env: Env): Plan
  {
    match FindParticipant(ps, id)
    case None => Skip(DisabledMessage)
    case Some(k) =>
      if !RowWants(ps[k], "assignment") then Skip(DisabledMessage)
      else OneMessage(id, ps[k].phoneNumber, GetMessage("assignment", NameData(recipientName), env))
  }

  /** The drawer is told exactly when they want assignment texts and the
      name is known; the text goes to the drawer's own number and names the
      recipient. */
  lemma AssignmentPlanMeaning(ps: seq<Participant>, id: Id, recipientName: string, env: Env)
    ensures var plan := AssignmentPlan(ps, id, recipientName, env);
      && (plan.Skip? <==> !ShouldReceive(ps, id, "assignment"))
      && (plan.Abort? <==> ShouldReceive(ps, id, "assignment") && recipientName == "")
      && (plan.One? ==>
            && plan.participant == id
            && (exists p :: p in ps && p.id == id && p.phoneNumber == plan.phone)
            && Contains(plan.body, recipientName)
            && plan.body == AssignmentMessage(recipientName, AppUrl(NoData, env)))
  {
    var found := FindParticipant(ps, id);
    if found.Some? {
      assert ps[found.value] in ps;
    }
  }

  method NotifyAssignment(db: Database, participantId: Id, recipientName: string, env: Env, now: Time) returns (r: Outcome)
    requires db.Valid()
    modifies db`queue, db`nextQueueId
    ensures db.Valid()
    ensures var plan := AssignmentPlan(old(db.participants), participantId, recipientName, env);
      && db.queue == old(db.queue) + PlanEntries(plan, old(db.nextQueueId), "assignment", AssignmentPriority, now)
      && db.nextQueueId == old(db.nextQueueId) + |PlanEntries(plan, old(db.nextQueueId), "assignment", AssignmentPriority, now)|
      && r == PlanOutcome(plan, old(db.nextQueueId))
  {
    var plan := AssignmentPlan(db.participants, participantId, recipientName, env);
    r := QueuePlan(db, plan, "assignment", AssignmentPriority, now);
  }

  // ---------------------------------------------------------------------
  // notifyWishListUpdate

  /** A row of the Santa query: the participant who drew `recipientId`. */
  function DrewRecipient(recipientId: Id): Participant -> bool
  {
    (p: Participant) => p.assignedTo == Some(recipientId)
  }

  /** `notifyWishListUpdate(recipientId)`: the first Santa of the recipient
      (the join needs the recipient's row), gated on the Santa's own
      wish-list-update preference; the text names the recipient. */
  function WishListUpdatePlan(ps: seq<Participant>, recipientId: Id, env: Env): Plan
  {
    var santa := IndexWhere(ps, DrewRecipient(recipientId));
    var recipient := NameOf(ps, recipientId);
    if santa.None? || recipient.None? then Skip(NoSantaMessage)
    else
      var s := ps[santa.value];
      if !ShouldReceive(ps, s.id, "wishlist_update") then Skip(DisabledMessage)
      else OneMessage(s.id, s.phoneNumber, GetMessage("wishlist_update", NameData(recipient.value), env))
  }

  /** Nobody is told before the recipient has been drawn; once they have, the
      text goes to a participant who drew them, when that participant wants
      it, and it names the recipient. When no two participants share a
      recipient, that participant is the one Santa of the recipient. */
  lemma WishListUpdateGoesToSanta(ps: seq<Participant>, recipientId: Id, env: Env)
    ensures var plan := WishListUpdatePlan(ps, recipientId, env);
      && ((forall p :: p in ps ==> p.assignedTo != Some(recipientId)) ==> plan == Skip(NoSantaMessage))
      && (plan.One? ==>
            && (exists p :: p in ps && p.id == plan.participant && p.phoneNumber == plan.phone
                          && p.assignedTo == Some(recipientId))
            && ShouldReceive(ps, plan.participant, "wishlist_update")
            && NameOf(ps, recipientId).Some?
            && Contains(plan.body, NameOf(ps, recipientId).value))
  {
    var santa := IndexWhere(ps, DrewRecipient(recipientId));
    if santa.Some? {
      assert ps[santa.value] in ps;
      assert DrewRecipient(recipientId)(ps[santa.value]);
    } else {
      forall p | p in ps ensures p.assignedTo != Some(recipientId) {
        var j :| 0 <= j < |ps| && ps[j] == p;
        assert !DrewRecipient(recipientId)(ps[j]);
      }
    }
  }

  /** Under the draw's consistency (no recipient drawn twice), the Santa is
      every participant who drew the recipient. */
  lemma WishListUpdateUniqueSanta(ps: seq<Participant>, recipientId: Id, env: Env)
    requires forall i, j :: 0 <= i < j < |ps| && ps[i].assignedTo.Some? ==> ps[i].assignedTo != ps[j].assignedTo
    ensures var plan := WishListUpdatePlan(ps, recipientId, env);
      plan.One? ==> forall p :: p in ps && p.assignedTo == Some(recipientId) ==> p.id == plan.participant
  {
    var santa := IndexWhere(ps, DrewRecipient(recipientId));
    if santa.Some? {
      var k := santa.value;
      forall p | p in ps && p.assignedTo == Some(recipientId) ensures p.id == ps[k].id {
        var j :| 0 <= j < |ps| && ps[j] == p;
        assert DrewRecipient(recipientId)(ps[j]);
        assert DrewRecipient(recipientId)(ps[k]);
        assert j == k;
      }
    }
  }

  method NotifyWishListUpdate(db: Database, recipientId: Id, env: Env, now: Time) returns (r: Outcome)
    requires db.Valid()
    modifies db`queue, db`nextQueueId
    ensures db.Valid()
    ensures var plan := WishListUpdatePlan(old(db.participants), recipientId, env);
      && db.queue == old(db.queue) + PlanEntries(plan, old(db.nextQueueId), "wishlist_update", WishListUpdatePriority, now)
      && db.nextQueueId == old(db.nextQueueId) + |PlanEntries(plan, old(db.nextQueueId), "wishlist_update", WishListUpdatePriority, now)|
      && r == PlanOutcome(plan, old(db.nextQueueId))
  {
    var plan := WishListUpdatePlan(db.participants, recipientId, env);
    r := QueuePlan(db, plan, "wishlist_update", WishListUpdatePriority, now);
  }

  // ---------------------------------------------------------------------
  // The broadcasts

  /** The same text to each of the given participants. */
  function SameText(ps: seq<Participant>, body: Result<string>): (r: seq<Send>)
    ensures |r| == |ps|
    ensures forall j :: 0 <= j < |ps| ==> r[j] == Send(ps[j].id, ps[j].phoneNumber, body)
  {
    seq(|ps|, j requires 0 <= j < |ps| => Send(ps[j].id, ps[j].phoneNumber, body))
  }

  /** `WHERE sms_enabled = TRUE AND notify_on_game_start = TRUE` */
  function WantsGameStart(p: Participant): bool
  {
    p.prefs.smsEnabled && p.prefs.notifyOnGameStart
  }

  /** `notifyGameStart`: one text for every participant with SMS and
      game-start texts on. */
  function GameStartSends(ps: seq<Participant>, env: Env): seq<Send>
  {
    SameText(Filter(ps, WantsGameStart), GetMessage("game_start", NoData, env))
  }

  /** The game-start broadcast reaches exactly the participants whose
      preferences admit it, each once, with the login text, and never
      aborts; so `queued` equals `total`. */
  lemma GameStartReachesExactly(ps: seq<Participant>, env: Env)
    requires SortedById(ps)
    ensures var sends := GameStartSends(ps, env);
      && (forall s :: s in sends ==> s.body == Ok(GameStartMessage(AppUrl(NoData, env))))
      && (forall s :: s in sends ==> ShouldReceive(ps, s.participant, "game_start"))
      && (forall p :: p in ps ==> (WantsGameStart(p) <==> exists s :: s in sends && s.participant == p.id))
      && BroadcastOutcome(sends) == Broadcast(|Filter(ps, WantsGameStart)|, |Filter(ps, WantsGameStart)|)
  {
    var sends := GameStartSends(ps, env);
    BroadcastAgrees(ps, WantsGameStart, "game_start", sends);
    OkPrefixAllOk(sends);
  }

  /** A broadcast to the rows a selection admits, in table order, when every
      admitted row also passes the preference check for the type: each text
      goes to somebody who wants it, and nobody admitted is missed. */
  lemma BroadcastAgrees(ps: seq<Participant>, want: Participant -> bool, kind: string, sends: seq<Send>)
    requires SortedById(ps)
    requires forall p :: want(p) ==> RowWants(p, kind)
    requires |sends| == |Filter(ps, want)|
    requires forall j :: 0 <= j < |sends| ==> sends[j].participant == Filter(ps, want)[j].id
    ensures forall s :: s in sends ==> ShouldReceive(ps, s.participant, kind)
    ensures forall p :: p in ps ==> (want(p) <==> exists s :: s in sends && s.participant == p.id)
  {
    var chosen := Filter(ps, want);
    forall s | s in sends ensures ShouldReceive(ps, s.participant, kind) {
      var j :| 0 <= j < |sends| && sends[j] == s;
      assert chosen[j] in chosen;
      var i :| 0 <= i < |ps| && ps[i] == chosen[j];
      FindUnique(ps, i);
    }
    forall p | p in ps ensures want(p) <==> exists s :: s in sends && s.participant == p.id {
      if want(p) {
        assert p in chosen;
        var j :| 0 <= j < |chosen| && chosen[j] == p;
        assert sends[j] in sends;
      }
      if exists s :: s in sends && s.participant == p.id {
        var s :| s in sends && s.participant == p.id;
        var j :| 0 <= j < |sends| && sends[j] == s;
        assert chosen[j] in chosen;
        var i :| 0 <= i < |ps| && ps[i] == chosen[j];
        var i' :| 0 <= i' < |ps| && ps[i'] == p;
        if i < i' {
          assert ps[i].id < ps[i'].id;
        } else if i' < i {
          assert ps[i'].id < ps[i].id;
        }
      }
    }
  }

  lemma {:induction false} OkPrefixAllOk(sends: seq<Send>)
    requires forall j :: 0 <= j < |sends| ==> sends[j].body.Ok?
    ensures OkPrefix(sends) == |sends|
    decreases |sends|
  {
    if sends != [] {
      OkPrefixAllOk(sends[1..]);
    }
  }

  method NotifyGameStart(db: Database, env: Env, now: Time) returns (r: Outcome)
    requires db.Valid()
    modifies db`queue, db`nextQueueId
    ensures db.Valid()
    ensures var sends := GameStartSends(old(db.participants), env);
      && db.queue == old(db.queue) + EntriesOf(sends[..OkPrefix(sends)], old(db.nextQueueId), "game_start", GameStartPriority, now)
      && db.nextQueueId == old(db.nextQueueId) + OkPrefix(sends)
      && r == BroadcastOutcome(sends)
  {
    var sends := GameStartSends(db.participants, env);
    r := QueueAll(db, sends, "game_start", GameStartPriority, now);
  }

  /** `notifyWishListReminders`: participants who drew more than a day ago,
      have SMS and reminders on, and have no item of their own yet. */
  predicate ReminderDue(items: seq<WishItem>, now: Time, p: Participant)
  {
    && p.hasPicked && p.prefs.smsEnabled && p.prefs.notifyReminders
    && p.pickedAt.Some? && p.pickedAt.value < now - ReminderDelay
    && forall w :: w in items ==> w.participant != Some(p.id)
  }

  function WantsWishListReminder(items: seq<WishItem>, now: Time): Participant -> bool
  {
    (p: Participant) => ReminderDue(items, now, p)
  }

  function WishListReminderSends(ps: seq<Participant>, items: seq<WishItem>, now: Time, env: Env): seq<Send>
  {
    SameText(Filter(ps, WantsWishListReminder(items, now)), GetMessage("wishlist_reminder", NoData, env))
  }

  /** The reminder reaches exactly the participants the query admits, each
      of whom also passes the preference check, and never aborts. */
  lemma WishListReminderReachesExactly(ps: seq<Participant>, items: seq<WishItem>, now: Time, env: Env)
    requires SortedById(ps)
    ensures var sends := WishListReminderSends(ps, items, now, env);
      && (forall s :: s in sends ==> s.body == Ok(WishListReminderMessage(AppUrl(NoData, env))))
      && (forall s :: s in sends ==> ShouldReceive(ps, s.participant, "wishlist_reminder"))
      && (forall p :: p in ps ==> (ReminderDue(items, now, p) <==> exists s :: s in sends && s.participant == p.id))
      && BroadcastOutcome(sends).Broadcast?
  {
    var sends := WishListReminderSends(ps, items, now, env);
    BroadcastAgrees(ps, WantsWishListReminder(items, now), "wishlist_reminder", sends);
    OkPrefixAllOk(sends);
  }

  /** A participant with a wish-list item gets no reminder. */
  lemma NoReminderWithItems(ps: seq<Participant>, items: seq<WishItem>, now: Time, env: Env, w: WishItem)
    requires w in items && w.participant.Some?
    ensures forall s :: s in WishListReminderSends(ps, items, now, env) ==> s.participant != w.participant.value
  {
    var chosen := Filter(ps, WantsWishListReminder(items, now));
    var sends := WishListReminderSends(ps, items, now, env);
    forall s | s in sends ensures s.participant != w.participant.value {
      var j :| 0 <= j < |sends| && sends[j] == s;
      assert chosen[j] in chosen;
      assert ReminderDue(items, now, chosen[j]);
    }
  }

  method NotifyWishListReminders(db: Database, env: Env, now: Time) returns (r: Outcome)
    requires db.Valid()
    modifies db`queue, db`nextQueueId
    ensures db.Valid()
    ensures var sends := WishListReminderSends(old(db.participants), old(db.items), now, env);
      && db.queue == old(db.queue) + EntriesOf(sends[..OkPrefix(sends)], old(db.nextQueueId), "wishlist_reminder", WishListReminderPriority, now)
      && db.nextQueueId == old(db.nextQueueId) + OkPrefix(sends)
      && r == BroadcastOutcome(sends)
  {
    var sends := WishListReminderSends(db.participants, db.items, now, env);
    r := QueueAll(db, sends, "wishlist_reminder", WishListReminderPriority, now);
  }

  /** The rows of the reminder joins: participants who drew, have SMS and
      reminders on, and whose recipient row exists. */
  function WantsRecipientReminder(ps: seq<Participant>): Participant -> bool
  {
    (p: Participant) =>
      && p.hasPicked && p.prefs.smsEnabled && p.prefs.notifyReminders
      && p.assignedTo.Some? && NameOf(ps, p.assignedTo.value).Some?
  }

  /** The recipient's first name, as the join reads it. */
  function RecipientName(ps: seq<Participant>, p: Participant): Option<string>
  {
    if p.assignedTo.Some? then NameOf(ps, p.assignedTo.value) else None
  }

  /** One text per joined row, built from the row's recipient name. */
  function RecipientSends(ps: seq<Participant>, kind: string, days: Option<int>, env: Env): (r: seq<Send>)
    ensures var chosen := Filter(ps, WantsRecipientReminder(ps));
      && |r| == |chosen|
      && forall j :: 0 <= j < |r| ==>
           r[j] == Send(chosen[j].id, chosen[j].phoneNumber,
                        GetMessage(kind, TemplateData(None, RecipientName(ps, chosen[j]), days, None), env))
  {
    var chosen := Filter(ps, WantsRecipientReminder(ps));
    seq(|chosen|, j requires 0 <= j < |chosen| =>
      Send(chosen[j].id, chosen[j].phoneNumber,
           GetMessage(kind, TemplateData(None, RecipientName(ps, chosen[j]), days, None), env)))
  }

  /** `notifyShoppingReminder(daysBeforeExchange)` */
  function ShoppingReminderSends(ps: seq<Participant>, daysBeforeExchange: int, env: Env): seq<Send>
  {
    RecipientSends(ps, "shopping_reminder", Some(daysBeforeExchange), env)
  }

  /** `notifyExchangeDay` */
  function ExchangeDaySends(ps: seq<Participant>, env: Env): seq<Send>
  {
    RecipientSends(ps, "exchange_day", None, env)
  }

  /** Both recipient reminders reach exactly the joined rows, each of whom
      also passes the preference check; a text is refused exactly for a
      recipient whose first name is empty, and an accepted one names the
      recipient. */
  lemma RecipientRemindersReachExactly(ps: seq<Participant>, kind: string, days: Option<int>, env: Env)
    requires SortedById(ps)
    requires kind in {"shopping_reminder", "exchange_day"}
    ensures var sends := RecipientSends(ps, kind, days, env);
      && (forall s :: s in sends ==> ShouldReceive(ps, s.participant, kind))
      && (forall p :: p in ps ==>
            ((&& p.hasPicked && p.prefs.smsEnabled && p.prefs.notifyReminders
              && p.assignedTo.Some? && exists r :: r in ps && r.id == p.assignedTo.value)
             <==> exists s :: s in sends && s.participant == p.id))
      && (forall j :: 0 <= j < |sends| ==>
            var p := Filter(ps, WantsRecipientReminder(ps))[j];
            && sends[j].participant == p.id
            && (sends[j].body.Err? <==> RecipientName(ps, p) == Some(""))
            && (sends[j].body.Ok? ==> Contains(sends[j].body.value, RecipientName(ps, p).value)))
  {
    var sends := RecipientSends(ps, kind, days, env);
    var chosen := Filter(ps, WantsRecipientReminder(ps));
    BroadcastAgrees(ps, WantsRecipientReminder(ps), kind, sends);
    forall j | 0 <= j < |sends|
      ensures && (sends[j].body.Err? <==> RecipientName(ps, chosen[j]) == Some(""))
              && (sends[j].body.Ok? ==> Contains(sends[j].body.value, RecipientName(ps, chosen[j]).value))
    {
      assert chosen[j] in chosen;
      var data := TemplateData(None, RecipientName(ps, chosen[j]), days, None);
      if sends[j].body.Ok? {
        GetMessageEmbedsName(kind, data, env);
      }
    }
  }

  /** A reminder broadcast aborts exactly when some joined row's recipient
      has an empty first name; the rows before it are queued. */
  lemma RecipientRemindersAbort(ps: seq<Participant>, kind: string, days: Option<int>, env: Env)
    requires kind in {"shopping_reminder", "exchange_day"}
    ensures var sends := RecipientSends(ps, kind, days, env);
      BroadcastOutcome(sends).Failed? <==>
        exists p :: p in Filter(ps, WantsRecipientReminder(ps)) && RecipientName(ps, p) == Some("")
  {
    var sends := RecipientSends(ps, kind, days, env);
    var chosen := Filter(ps, WantsRecipientReminder(ps));
    var k := OkPrefix(sends);
    if k < |sends| {
      assert chosen[k] in chosen;
      assert !HasName(TemplateData(None, RecipientName(ps, chosen[k]), days, None));
    } else {
      forall p | p in chosen ensures RecipientName(ps, p) != Some("") {
        var j :| 0 <= j < |chosen| && chosen[j] == p;
        assert sends[j].body.Ok?;
      }
    }
  }

  method NotifyShoppingReminder(db: Database, daysBeforeExchange: int, env: Env, now: Time) returns (r: Outcome)
    requires db.Valid()
    modifies db`queue, db`nextQueueId
    ensures db.Valid()
    ensures var sends := ShoppingReminderSends(old(db.participants), daysBeforeExchange, env);
      && db.queue == old(db.queue) + EntriesOf(sends[..OkPrefix(sends)], old(db.nextQueueId), "shopping_reminder", ShoppingReminderPriority, now)
      && db.nextQueueId == old(db.nextQueueId) + OkPrefix(sends)
      && r == BroadcastOutcome(sends)
  {
    var sends := ShoppingReminderSends(db.participants, daysBeforeExchange, env);
    r := QueueAll(db, sends, "shopping_reminder", ShoppingReminderPriority, now);
  }

  method NotifyExchangeDay(db: Database, env: Env, now: Time) returns (r: Outcome)
    requires db.Valid()
    modifies db`queue, db`nextQueueId
    ensures db.Valid()
    ensures var sends := ExchangeDaySends(old(db.participants), env);
      && db.queue == old(db.queue) + EntriesOf(sends[..OkPrefix(sends)], old(db.nextQueueId), "exchange_day", ExchangeDayPriority, now)
      && db.nextQueueId == old(db.nextQueueId) + OkPrefix(sends)
      && r == BroadcastOutcome(sends)
  {
    var sends := ExchangeDaySends(db.participants, env);
    r := QueueAll(db, sends, "exchange_day", ExchangeDayPriority, now);
  }

  // ---------------------------------------------------------------------
  // sendTestSMS

  /** `sendTestSMS(participantId)`: no preference is consulted. */
  function TestPlan(ps: seq<Participant>, id: Id, env: Env): Plan
  {
    match FindParticipant(ps, id)
    case None => Abort(NotFoundError)
    case Some(k) => OneMessage(id, ps[k].phoneNumber, GetMessage("test", TemplateData(None, None, None, Some(ps[k].firstName)), env))
  }

  /** The test text goes to every participant that exists, whatever their
      preferences, and greets them by first name (or "there"). */
  lemma TestPlanMeaning(ps: seq<Participant>, id: Id, env: Env)
    ensures var plan := TestPlan(ps, id, env);
      && (plan.Abort? <==> forall p :: p in ps ==> p.id != id)
      && (plan.Abort? ==> plan.error == NotFoundError)
      && (plan.One? ==>
            && plan.participant == id
            && exists p :: p in ps && p.id == id && p.phoneNumber == plan.phone
                 && Contains(plan.body, "Hi " + (if p.firstName == "" then DefaultTestName else p.firstName) + "!"))
  {
    var found := FindParticipant(ps, id);
    if found.Some? {
      var p := ps[found.value];
      assert p in ps;
      TestGreets(p.firstName, env);
    }
  }

  method SendTestSms(db: Database, participantId: Id, env: Env, now: Time) returns (r: Outcome)
    requires db.Valid()
    modifies db`queue, db`nextQueueId
    ensures db.Valid()
    ensures var plan := TestPlan(old(db.participants), participantId, env);
      && db.queue == old(db.queue) + PlanEntries(plan, old(db.nextQueueId), "test", TestPriority, now)
      && db.nextQueueId == old(db.nextQueueId) + |PlanEntries(plan, old(db.nextQueueId), "test", TestPriority, now)|
      && r == PlanOutcome(plan, old(db.nextQueueId))
  {
    var plan := TestPlan(db.participants, participantId, env);
    r := QueuePlan(db, plan, "test", TestPriority, now);
  }
}
