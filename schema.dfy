/** The database the services share: one row datatype per table and one
    `Database` object holding every table, passed to each service operation
    the way the source passes its connection pool around. */
module Schema {
  import opened Common

  /** The five notification flags of a participant row (TINYINT columns that
      hold 0 or 1). */
  datatype Preferences = Preferences(
    smsEnabled: bool,
    notifyOnAssignment: bool,
    notifyOnWishlistUpdate: bool,
    notifyOnGameStart: bool,
    notifyReminders: bool)

  /** A row of `participants`. */
  datatype Participant = Participant(
    id: Id,
    firstName: string,
    phoneNumber: string,
    assignedTo: Option<Id>,
    hasPicked: bool,
    pickedAt: Option<Time>,
    prefs: Preferences)

  /** A row of `exclusion_rules`: `participant` may not draw `excluded`. */
  datatype ExclusionRule = ExclusionRule(
    id: Id,
    participant: Id,
    excluded: Id,
    reason: Option<string>)

  /** A row of `sms_queue`. A lower `priority` is sent first. */
  datatype QueueEntry = QueueEntry(
    id: Id,
    participant: Id,
    phoneNumber: string,
    messageType: string,
    body: string,
    priority: int,
    scheduledFor: Time,
    processed: bool,
    processedAt: Option<Time>)

  /** A row of `sms_logs`. */
  datatype LogEntry = LogEntry(
    participant: Id,
    phoneNumber: string,
    messageType: string,
    body: string,
    twilioSid: Option<string>,
    status: string,
    errorMessage: Option<string>,
    deliveredAt: Option<Time>)

  /** A row of `non_participants`: a person without a login whose wish list a
      participant manages. */
  datatype NonParticipant = NonParticipant(id: Id, name: string, managedBy: Id)

  /** A row of `wish_list_items`; it belongs to a participant or to a
      non-participant. */
  datatype WishItem = WishItem(
    id: Id,
    participant: Option<Id>,
    nonParticipant: Option<Id>,
    itemName: string,
    description: Option<string>,
    link: Option<string>,
    priceRange: Option<string>,
    priority: int,
    displayOrder: int)

  /** A row of `wish_list_purchases`: `santa` has bought `item`. */
  datatype Purchase = Purchase(id: Id, item: Id, santa: Id)

  /** The process environment the services read. A variable that is not set
      reads as the empty string. */
  datatype Env = Env(
    appUrl: string,
    smsEnabled: string,
    twilioAccountSid: string,
    twilioAuthToken: string,
    twilioPhoneNumber: string)

  // ---------------------------------------------------------------------
  // Keys

  function RuleKey(r: ExclusionRule): int { r.id }
  function RulePair(r: ExclusionRule): (Id, Id) { (r.participant, r.excluded) }
  function QueueKey(e: QueueEntry): int { e.id }
  function NonParticipantKey(n: NonParticipant): int { n.id }
  function ItemKey(w: WishItem): int { w.id }
  function PurchaseKey(p: Purchase): int { p.id }
  function PurchasePair(p: Purchase): (Id, Id) { (p.item, p.santa) }

  /** No two rows share a key. */
  predicate DistinctBy<T, K(==)>(s: seq<T>, key: T -> K)
  {
    forall i, j :: 0 <= i < j < |s| ==> key(s[i]) != key(s[j])
  }

  /** Every key is below the next AUTO_INCREMENT value. */
  predicate AllBelow<T>(s: seq<T>, key: T -> int, bound: int)
  {
    forall i :: 0 <= i < |s| ==> key(s[i]) < bound
  }

  lemma DistinctAppend<T>(s: seq<T>, x: T, key: T -> int, bound: int)
    requires DistinctBy(s, key) && AllBelow(s, key, bound) && key(x) == bound
    ensures DistinctBy(s + [x], key) && AllBelow(s + [x], key, bound + 1)
  {
  }

  lemma {:induction false} FilterKeepsDistinct<T(!new), K>(s: seq<T>, f: T -> bool, key: T -> K)
    requires DistinctBy(s, key)
    ensures DistinctBy(Filter(s, f), key)
    decreases |s|
  {
    if s != [] {
      FilterKeepsDistinct(s[1..], f, key);
      var rest := Filter(s[1..], f);
      forall y | y in rest ensures key(y) != key(s[0]) {
        var j :| 0 <= j < |s[1..]| && s[1..][j] == y;
        assert s[j + 1] == y;
      }
    }
  }

  /** Distinct keys: at most one row can carry a given key. */
  lemma AtMostOneWithKey<T, K>(s: seq<T>, key: T -> K, v: K)
    requires DistinctBy(s, key)
    requires forall i :: 0 <= i < |s| ==> key(s[i]) == v
    ensures |s| <= 1
  {
    if |s| > 1 {
      DistinctAt(s, key, 0, 1);
      assert false;
    }
  }

  lemma DistinctAt<T, K>(s: seq<T>, key: T -> K, i: int, j: int)
    requires DistinctBy(s, key) && 0 <= i < j < |s|
    ensures key(s[i]) != key(s[j])
  {
  }

  lemma FilterKeepsBelow<T(!new)>(s: seq<T>, f: T -> bool, key: T -> int, bound: int)
    requires AllBelow(s, key, bound)
    ensures AllBelow(Filter(s, f), key, bound)
  {
    var r := Filter(s, f);
    forall i | 0 <= i < |r| ensures key(r[i]) < bound {
      assert r[i] in s;
    }
  }

  /** Participant rows in id order: ids are handed out in increasing order and
      rows are never re-keyed, so the table order is `ORDER BY id`. */
  predicate SortedById(ps: seq<Participant>)
  {
    forall i, j :: 0 <= i < j < |ps| ==> ps[i].id < ps[j].id
  }

  /** Each item has exactly one owner: a participant or a non-participant. */
  predicate SingleOwner(items: seq<WishItem>)
  {
    forall w :: w in items ==> (w.participant.Some? <==> w.nonParticipant.None?)
  }

  // ---------------------------------------------------------------------
  // Lookups

  function HasParticipantId(id: Id): Participant -> bool
  {
    (p: Participant) => p.id == id
  }

  /** `SELECT ... FROM participants WHERE id = ?`, first row. */
  function FindParticipant(ps: seq<Participant>, id: Id): (r: Option<nat>)
    ensures r.Some? ==> r.value < |ps| && ps[r.value].id == id
    ensures r.None? ==> forall p :: p in ps ==> p.id != id
  {
    IndexWhere(ps, HasParticipantId(id))
  }

  /** In a table in id order, looking up a row's id finds that row. */
  lemma FindUnique(ps: seq<Participant>, j: int)
    requires SortedById(ps) && 0 <= j < |ps|
    ensures FindParticipant(ps, ps[j].id) == Some(j)
  {
    assert ps[j] in ps;
    assert HasParticipantId(ps[j].id)(ps[j]);
  }

  /** The first name of the participant with this id, if there is one. */
  function NameOf(ps: seq<Participant>, id: Id): (r: Option<string>)
    ensures r.Some? <==> exists p :: p in ps && p.id == id
    ensures r.Some? ==> exists p :: p in ps && p.id == id && p.firstName == r.value
  {
    match FindParticipant(ps, id)
    case None => None
    case Some(k) => Some(ps[k].firstName)
  }

  /** Some rule says that `a` may not draw `b`. */
  predicate Excludes(rules: seq<ExclusionRule>, a: Id, b: Id)
  {
    exists r :: r in rules && r.participant == a && r.excluded == b
  }

  // ---------------------------------------------------------------------
  // The database handle

  class Database {
    var participants: seq<Participant>
    var exclusions: seq<ExclusionRule>
    var nextExclusionId: Id
    var queue: seq<QueueEntry>
    var nextQueueId: Id
    var logs: seq<LogEntry>
    var nonParticipants: seq<NonParticipant>
    var items: seq<WishItem>
    var nextItemId: Id
    var purchases: seq<Purchase>
    var nextPurchaseId: Id

    /** The keys and unique constraints of the tables, and the one-owner rule
        of wish-list items. */
    ghost predicate Valid()
      reads this
    {
      && SortedById(participants)
      && DistinctBy(exclusions, RuleKey) && AllBelow(exclusions, RuleKey, nextExclusionId)
      && DistinctBy(exclusions, RulePair)
      && DistinctBy(queue, QueueKey) && AllBelow(queue, QueueKey, nextQueueId)
      && DistinctBy(nonParticipants, NonParticipantKey)
      && DistinctBy(items, ItemKey) && AllBelow(items, ItemKey, nextItemId)
      && SingleOwner(items)
      && DistinctBy(purchases, PurchaseKey) && AllBelow(purchases, PurchaseKey, nextPurchaseId)
      && DistinctBy(purchases, PurchasePair)
    }

    /** A database whose participants and non-participants were entered
        through the administration pages, and whose other tables are empty. */
    constructor (participants: seq<Participant>, nonParticipants: seq<NonParticipant>)
      requires SortedById(participants)
      requires DistinctBy(nonParticipants, NonParticipantKey)
      ensures Valid()
      ensures this.participants == participants && this.nonParticipants == nonParticipants
      ensures exclusions == [] && queue == [] && logs == [] && items == [] && purchases == []
    {
      this.participants := participants;
      this.nonParticipants := nonParticipants;
      exclusions, queue, logs, items, purchases := [], [], [], [], [];
      nextExclusionId, nextQueueId, nextItemId, nextPurchaseId := 1, 1, 1, 1;
    }

    /** Replaces the participant rows by rows that keep the id order. */
    method SetParticipants(ps: seq<Participant>)
      requires Valid() && SortedById(ps)
      modifies this`participants
      ensures Valid() && participants == ps
    {
      participants := ps;
    }
  }
}
