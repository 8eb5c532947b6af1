/** The wish-list rules: who may add, edit, delete and reorder items, what a
    Santa sees of their recipient's list, the purchase toggle, and the
    all-wishlists grouping. */
module WishlistController {
  import opened Common
  import opened Schema
  import NotificationService

  const DefaultItemPriority: int := 2
  /** The column default of `display_order` for a new item. */
  const DefaultDisplayOrder: int := 0

  const NotManagerMessage: string := "You do not manage this non-participant"
  const ItemNotFoundMessage: string := "Item not found"
  const EditForbiddenMessage: string := "You can only edit your own wish list items"
  const DeleteForbiddenMessage: string := "You can only delete your own wish list items"
  const InvalidOrderMessage: string := "Invalid item order"
  const NotDrawnMessage: string := "You must draw your Secret Santa first"
  const NotRecipientMessage: string := "You can only mark items from your recipient's wish list"

  /** The reply of a handler: success (with the new item's id, or the new
      purchase state), or a refusal with its HTTP status. */
  datatype Reply =
    | Done
    | Created(itemId: Id)
    | Toggled(isPurchased: bool)
    | Refused(status: int, message: string)

  /** The item fields of a request body, after validation; a field the
      request leaves out is `None`. */
  datatype ItemFields = ItemFields(
    itemName: string,
    description: Option<string>,
    link: Option<string>,
    priceRange: Option<string>,
    priority: Option<int>)

  /** `priority || 2` */
  function PriorityOrDefault(p: Option<int>): (r: int)
    ensures p.Some? && p.value != 0 ==> r == p.value
    ensures p.None? || p.value == 0 ==> r == DefaultItemPriority
  {
    if p.Some? && p.value != 0 then p.value else DefaultItemPriority
  }

  /** Changing the rows of the item table without touching their keys or
      owners keeps the table's constraints. */
  lemma SameKeysAndOwners(a: seq<WishItem>, b: seq<WishItem>, bound: int)
    requires DistinctBy(a, ItemKey) && AllBelow(a, ItemKey, bound) && SingleOwner(a)
    requires |a| == |b|
    requires forall k :: 0 <= k < |a| ==>
      b[k].id == a[k].id && b[k].participant == a[k].participant && b[k].nonParticipant == a[k].nonParticipant
    ensures DistinctBy(b, ItemKey) && AllBelow(b, ItemKey, bound) && SingleOwner(b)
  {
    forall w | w in b ensures w.participant.Some? <==> w.nonParticipant.None? {
      var k :| 0 <= k < |b| && b[k] == w;
      assert a[k] in a;
    }
  }

  // ---------------------------------------------------------------------
  // addItem

  /** The non-participant check of `addItem`. */
  predicate Manages(nps: seq<NonParticipant>, caller: Id, npId: Id)
  {
    exists n :: n in nps && n.id == npId && n.managedBy == caller
  }

  /** The row `addItem` inserts. */
  function NewItem(id: Id, caller: Id, fields: ItemFields, np: Option<Id>): (w: WishItem)
    ensures w.id == id
    ensures w.participant.Some? <==> w.nonParticipant.None?
    ensures w.nonParticipant == np
    ensures np.None? ==> w.participant == Some(caller)
    ensures w.itemName == fields.itemName
    ensures w.description == OrNull(fields.description) && w.link == OrNull(fields.link)
      && w.priceRange == OrNull(fields.priceRange)
    ensures w.priority == PriorityOrDefault(fields.priority) && w.displayOrder == DefaultDisplayOrder
  {
    WishItem(id, if np.Some? then None else Some(caller), np, fields.itemName,
      OrNull(fields.description), OrNull(fields.link), OrNull(fields.priceRange),
      PriorityOrDefault(fields.priority), DefaultDisplayOrder)
  }

  /** Whether `addItem` refuses: only for a non-participant the caller does
      not manage. */
  function AddRefusal(nps: seq<NonParticipant>, caller: Id, np: Option<Id>): (r: Option<Reply>)
    ensures r.Some? <==> np.Some? && !Manages(nps, caller, np.value)
    ensures r.Some? ==> r.value == Refused(403, NotManagerMessage)
  {
    if np.Some? && !Manages(nps, caller, np.value) then Some(Refused(403, NotManagerMessage)) else None
  }

  /** `addItem`. A participant's own new item tells their Santa. */
  method AddItem(db: Database, caller: Id, fields: ItemFields, np: Option<Id>, env: Env, now: Time) returns (r: Reply)
    requires db.Valid()
    modifies db`items, db`nextItemId, db`queue, db`nextQueueId
    ensures db.Valid()
    ensures AddRefusal(old(db.nonParticipants), caller, np).Some? ==>
      r == AddRefusal(old(db.nonParticipants), caller, np).value
      && db.items == old(db.items) && db.queue == old(db.queue)
      && db.nextItemId == old(db.nextItemId) && db.nextQueueId == old(db.nextQueueId)
    ensures AddRefusal(old(db.nonParticipants), caller, np).None? ==>
      var sent := if np.None? then NotificationService.PlanEntries(
                    NotificationService.WishListUpdatePlan(db.participants, caller, env),
                    old(db.nextQueueId), "wishlist_update", NotificationService.WishListUpdatePriority, now)
                  else [];
      && r == Created(old(db.nextItemId))
      && db.items == old(db.items) + [NewItem(old(db.nextItemId), caller, fields, np)]
      && db.nextItemId == old(db.nextItemId) + 1
      && db.queue == old(db.queue) + sent
      && db.nextQueueId == old(db.nextQueueId) + |sent|
  {
    var refusal := AddRefusal(db.nonParticipants, caller, np);
    if refusal.Some? {
      return refusal.value;
    }
    var w := NewItem(db.nextItemId, caller, fields, np);
    DistinctAppend(db.items, w, ItemKey, db.nextItemId);
    db.items := db.items + [w];
    db.nextItemId := db.nextItemId + 1;
    r := Created(w.id);
    if np.None? {
      var notified := NotificationService.NotifyWishListUpdate(db, caller, env, now);
    }
  }

  // ---------------------------------------------------------------------
  // updateItem and deleteItem

  function HasItemId(itemId: int): WishItem -> bool
  {
    (w: WishItem) => w.id == itemId
  }

  /** `SELECT ... FROM wish_list_items WHERE id = ?`, first row. */
  function FindItem(items: seq<WishItem>, itemId: int): (r: Option<nat>)
    ensures r.Some? ==> r.value < |items| && items[r.value].id == itemId
    ensures r.None? ==> forall w :: w in items ==> w.id != itemId
  {
    IndexWhere(items, HasItemId(itemId))
  }

  /** The manager the LEFT JOIN finds for a non-participant, if any. */
  function ManagerOf(nps: seq<NonParticipant>, npId: Id): (r: Option<Id>)
    ensures r.Some? ==> exists n :: n in nps && n.id == npId && n.managedBy == r.value
    ensures r.None? ==> forall n :: n in nps ==> n.id != npId
  {
    match IndexWhere(nps, (n: NonParticipant) => n.id == npId)
    case None => None
    case Some(k) => Some(nps[k].managedBy)
  }

  /** `isOwner`: the item is the caller's own. */
  predicate IsOwner(w: WishItem, caller: Id)
  {
    w.participant == Some(caller)
  }

  /** `isOwner || managesNonParticipant` */
  predicate MayEdit(nps: seq<NonParticipant>, w: WishItem, caller: Id)
  {
    IsOwner(w, caller) || (w.nonParticipant.Some? && ManagerOf(nps, w.nonParticipant.value) == Some(caller))
  }

  /** With non-participant ids unique, the caller may edit exactly their own
      items and the items of the non-participants they manage. */
  lemma MayEditMeaning(nps: seq<NonParticipant>, w: WishItem, caller: Id)
    requires DistinctBy(nps, NonParticipantKey)
    ensures MayEdit(nps, w, caller) <==>
      w.participant == Some(caller) || (w.nonParticipant.Some? && Manages(nps, caller, w.nonParticipant.value))
  {
    if w.nonParticipant.Some? && Manages(nps, caller, w.nonParticipant.value) {
      var n :| n in nps && n.id == w.nonParticipant.value && n.managedBy == caller;
      var m := ManagerOf(nps, w.nonParticipant.value);
      var n' :| n' in nps && n'.id == w.nonParticipant.value && n'.managedBy == m.value;
      var i :| 0 <= i < |nps| && nps[i] == n;
      var j :| 0 <= j < |nps| && nps[j] == n';
      assert NonParticipantKey(nps[i]) == NonParticipantKey(nps[j]);
      assert i == j;
    }
  }

  /** The refusals shared by update and delete: a missing item is not found,
      an item the caller may not edit is forbidden. */
  function EditRefusal(items: seq<WishItem>, nps: seq<NonParticipant>, itemId: int, caller: Id, forbidden: string): (r: Option<Reply>)
    ensures r == Some(Refused(404, ItemNotFoundMessage)) <==> forall w :: w in items ==> w.id != itemId
    ensures r.None? <==> FindItem(items, itemId).Some? && MayEdit(nps, items[FindItem(items, itemId).value], caller)
    ensures r.Some? ==> r.value.Refused?
    ensures r.Some? && r.value.status == 403 ==> r.value.message == forbidden
  {
    match FindItem(items, itemId)
    case None => Some(Refused(404, ItemNotFoundMessage))
    case Some(k) =>
      assert items[k] in items;
      if !MayEdit(nps, items[k], caller) then Some(Refused(403, forbidden)) else None
  }

  /** The UPDATE of `updateItem`. */
  function UpdateRow(w: WishItem, itemId: int, fields: ItemFields): WishItem
  {
    if w.id == itemId then
      w.(itemName := fields.itemName, description := OrNull(fields.description), link := OrNull(fields.link),
         priceRange := OrNull(fields.priceRange), priority := PriorityOrDefault(fields.priority))
    else w
  }

  function UpdateItems(items: seq<WishItem>, itemId: int, fields: ItemFields): (r: seq<WishItem>)
    ensures |r| == |items|
    ensures forall k :: 0 <= k < |items| ==> r[k] == UpdateRow(items[k], itemId, fields)
  {
    seq(|items|, k requires 0 <= k < |items| => UpdateRow(items[k], itemId, fields))
  }

  /** An update rewrites the item's own fields and nothing else: its id, its
      owner and its place in the list stay, and every other row is kept. */
  lemma UpdateTouchesOneItem(items: seq<WishItem>, itemId: int, fields: ItemFields)
    ensures var r := UpdateItems(items, itemId, fields);
      forall k :: 0 <= k < |items| ==>
        && r[k].id == items[k].id && r[k].participant == items[k].participant
        && r[k].nonParticipant == items[k].nonParticipant && r[k].displayOrder == items[k].displayOrder
        && (items[k].id != itemId ==> r[k] == items[k])
        && (items[k].id == itemId ==>
              r[k].itemName == fields.itemName && r[k].priority == PriorityOrDefault(fields.priority)
              && r[k].description == OrNull(fields.description) && r[k].link == OrNull(fields.link)
              && r[k].priceRange == OrNull(fields.priceRange))
  {
  }

  /** `updateItem`. Only the owner's own edit tells their Santa. */
  method UpdateItem(db: Database, caller: Id, itemId: int, fields: ItemFields, env: Env, now: Time) returns (r: Reply)
    requires db.Valid()
    modifies db`items, db`queue, db`nextQueueId
    ensures db.Valid()
    ensures var refusal := EditRefusal(old(db.items), db.nonParticipants, itemId, caller, EditForbiddenMessage);
      && (refusal.Some? ==>
            && r == refusal.value && db.items == old(db.items)
            && db.queue == old(db.queue) && db.nextQueueId == old(db.nextQueueId))
      && (refusal.None? ==>
            var sent := if IsOwner(old(db.items)[FindItem(old(db.items), itemId).value], caller)
                        then NotificationService.PlanEntries(
                          NotificationService.WishListUpdatePlan(db.participants, caller, env),
                          old(db.nextQueueId), "wishlist_update", NotificationService.WishListUpdatePriority, now)
                        else [];
            && r == Done
            && db.items == UpdateItems(old(db.items), itemId, fields)
            && db.queue == old(db.queue) + sent
            && db.nextQueueId == old(db.nextQueueId) + |sent|)
  {
    var refusal := EditRefusal(db.items, db.nonParticipants, itemId, caller, EditForbiddenMessage);
    if refusal.Some? {
      return refusal.value;
    }
    var isOwner := IsOwner(db.items[FindItem(db.items, itemId).value], caller);
    var updated := UpdateItems(db.items, itemId, fields);
    SameKeysAndOwners(db.items, updated, db.nextItemId);
    db.items := updated;
    r := Done;
    if isOwner {
      var notified := NotificationService.NotifyWishListUpdate(db, caller, env, now);
    }
  }

  /** `DELETE FROM wish_list_items WHERE id = ?` */
  function DeleteItems(items: seq<WishItem>, itemId: int): (r: seq<WishItem>)
    ensures forall w :: w in r <==> w in items && w.id != itemId
  {
    Filter(items, Not(HasItemId(itemId)))
  }

  /** `deleteItem` */
  method DeleteItem(db: Database, caller: Id, itemId: int) returns (r: Reply)
    requires db.Valid()
    modifies db`items
    ensures db.Valid()
    ensures var refusal := EditRefusal(old(db.items), db.nonParticipants, itemId, caller, DeleteForbiddenMessage);
      && (refusal.Some? ==> r == refusal.value && db.items == old(db.items))
      && (refusal.None? ==> r == Done && db.items == DeleteItems(old(db.items), itemId))
  {
    var refusal := EditRefusal(db.items, db.nonParticipants, itemId, caller, DeleteForbiddenMessage);
    if refusal.Some? {
      return refusal.value;
    }
    var kept := DeleteItems(db.items, itemId);
    FilterKeepsDistinct(db.items, Not(HasItemId(itemId)), ItemKey);
    FilterKeepsBelow(db.items, Not(HasItemId(itemId)), ItemKey, db.nextItemId);
    db.items := kept;
    r := Done;
  }

  /** Update and delete succeed exactly for an existing item the caller may
      edit. */
  lemma EditAllowedExactly(items: seq<WishItem>, nps: seq<NonParticipant>, itemId: int, caller: Id, forbidden: string)
    requires DistinctBy(items, ItemKey)
    ensures EditRefusal(items, nps, itemId, caller, forbidden).None? <==>
      exists w :: w in items && w.id == itemId && MayEdit(nps, w, caller)
  {
    var found := FindItem(items, itemId);
    if found.Some? {
      var k := found.value;
      assert items[k] in items;
      forall w | w in items && w.id == itemId ensures w == items[k] {
        var j :| 0 <= j < |items| && items[j] == w;
        assert ItemKey(items[j]) == ItemKey(items[k]);
        assert j == k;
      }
    }
  }

  // ---------------------------------------------------------------------
  // reorderItems

  /** The WHERE of the reorder UPDATE: `id = ?` for the JSON value sent (a
      number, or a string MySQL reads as that number) and the caller's own
      item. */
  predicate ReorderHits(w: WishItem, caller: Id, v: Value)
  {
    && w.participant == Some(caller)
    && ((v.Num? && v.x == w.id as real) || (v.Str? && v.s == NatToString(w.id)))
  }

  /** One UPDATE of the loop: `display_order = i` on the rows it hits. */
  function SetOrder(items: seq<WishItem>, caller: Id, v: Value, i: int): (r: seq<WishItem>)
    ensures |r| == |items|
    ensures forall k :: 0 <= k < |items| ==>
      r[k] == if ReorderHits(items[k], caller, v) then items[k].(displayOrder := i) else items[k]
  {
    seq(|items|, k requires 0 <= k < |items| =>
      if ReorderHits(items[k], caller, v) then items[k].(displayOrder := i) else items[k])
  }

  /** The first `n` UPDATEs of the loop. */
  function ReorderPrefix(items: seq<WishItem>, caller: Id, ids: seq<Value>, n: nat): (r: seq<WishItem>)
    requires n <= |ids|
    ensures |r| == |items|
    decreases n
  {
    if n == 0 then items
    else SetOrder(ReorderPrefix(items, caller, ids, n - 1), caller, ids[n - 1], n - 1)
  }

  /** The last position among the first `n` that hits the item. */
  function LastHit(w: WishItem, caller: Id, ids: seq<Value>, n: nat): (r: Option<nat>)
    requires n <= |ids|
    ensures r.Some? ==> r.value < n && ReorderHits(w, caller, ids[r.value])
    ensures r.Some? ==> forall j :: r.value < j < n ==> !ReorderHits(w, caller, ids[j])
    ensures r.None? ==> forall j :: 0 <= j < n ==> !ReorderHits(w, caller, ids[j])
    decreases n
  {
    if n == 0 then None
    else if ReorderHits(w, caller, ids[n - 1]) then Some(n - 1)
    else LastHit(w, caller, ids, n - 1)
  }

  /** Whether a row is hit does not depend on its display order. */
  lemma HitIgnoresOrder(w: WishItem, caller: Id, v: Value, i: int)
    ensures ReorderHits(w.(displayOrder := i), caller, v) == ReorderHits(w, caller, v)
  {
  }

  /** After the loop each of the caller's items sits at the last position of
      the list that names it; every other item, and every other column, is
      unchanged. */
  lemma {:induction false} ReorderMeaning(items: seq<WishItem>, caller: Id, ids: seq<Value>, n: nat)
    requires n <= |ids|
    ensures var r := ReorderPrefix(items, caller, ids, n);
      forall k :: 0 <= k < |items| ==>
        r[k] == match LastHit(items[k], caller, ids, n)
                case None => items[k]
                case Some(j) => items[k].(displayOrder := j)
    decreases n
  {
    if n > 0 {
      ReorderMeaning(items, caller, ids, n - 1);
      var prev := ReorderPrefix(items, caller, ids, n - 1);
      forall k | 0 <= k < |items|
        ensures ReorderPrefix(items, caller, ids, n)[k] ==
          match LastHit(items[k], caller, ids, n)
          case None => items[k]
          case Some(j) => items[k].(displayOrder := j)
      {
        if LastHit(items[k], caller, ids, n - 1).Some? {
          HitIgnoresOrder(items[k], caller, ids[n - 1], LastHit(items[k], caller, ids, n - 1).value);
        }
      }
    }
  }

  /** A list of distinct numeric ids puts each of the caller's named items at
      its index, and leaves the rows of other participants alone. */
  lemma ReorderPlacesEachId(items: seq<WishItem>, caller: Id, ids: seq<Value>, k: nat, i: nat)
    requires k < |items| && i < |ids|
    requires forall a, b :: 0 <= a < b < |ids| ==> ids[a] != ids[b]
    requires forall j :: 0 <= j < |ids| ==> ids[j].Num?
    requires items[k].participant == Some(caller) && ids[i] == Num(items[k].id as real)
    ensures ReorderPrefix(items, caller, ids, |ids|)[k] == items[k].(displayOrder := i)
  {
    ReorderMeaning(items, caller, ids, |ids|);
    var last := LastHit(items[k], caller, ids, |ids|);
    assert ReorderHits(items[k], caller, ids[i]);
    assert last.Some?;
    var j := last.value;
    assert j == i;
  }

  /** Nobody else's item is reordered. */
  lemma ReorderOnlyOwnItems(items: seq<WishItem>, caller: Id, ids: seq<Value>)
    ensures var r := ReorderPrefix(items, caller, ids, |ids|);
      forall k :: 0 <= k < |items| && items[k].participant != Some(caller) ==> r[k] == items[k]
  {
    ReorderMeaning(items, caller, ids, |ids|);
  }

  /** `reorderItems(itemIds)` */
  method ReorderItems(db: Database, caller: Id, itemIds: Value) returns (r: Reply)
    requires db.Valid()
    modifies db`items
    ensures db.Valid()
    ensures !itemIds.Arr? || itemIds.items == [] ==> r == Refused(400, InvalidOrderMessage) && db.items == old(db.items)
    ensures itemIds.Arr? && itemIds.items != [] ==>
      r == Done && db.items == ReorderPrefix(old(db.items), caller, itemIds.items, |itemIds.items|)
  {
    if !itemIds.Arr? || |itemIds.items| == 0 {
      return Refused(400, InvalidOrderMessage);
    }
    var ids := itemIds.items;
    ghost var items0 := db.items;
    var i := 0;
    while i < |ids|
      invariant 0 <= i <= |ids|
      invariant db.Valid()
      invariant db.items == ReorderPrefix(items0, caller, ids, i)
    {
      var next := SetOrder(db.items, caller, ids[i], i);
      SameKeysAndOwners(db.items, next, db.nextItemId);
      db.items := next;
      i := i + 1;
    }
    r := Done;
  }

  // ---------------------------------------------------------------------
  // getRecipientItems

  /** A row of the recipient's list as the Santa sees it. */
  datatype RecipientItem = RecipientItem(item: WishItem, isPurchased: bool)

  /** `ORDER BY display_order, priority` */
  function ListOrder(r: RecipientItem): (int, int)
  {
    (r.item.displayOrder, r.item.priority)
  }

  function ItemOrder(w: WishItem): (int, int)
  {
    (w.displayOrder, w.priority)
  }

  predicate Bought(purchases: seq<Purchase>, itemId: Id, santa: Id)
  {
    exists p :: p in purchases && p.item == itemId && p.santa == santa
  }

  function OwnedBy(owner: Id): WishItem -> bool
  {
    (w: WishItem) => w.participant == Some(owner)
  }

  /** The recipient the Santa drew: `WHERE id = ? AND has_picked = TRUE`
      and a present `assigned_to_id`. */
  function DrawnRecipient(ps: seq<Participant>, santa: Id): (r: Option<Id>)
    ensures r.Some? ==> exists p :: p in ps && p.id == santa && p.hasPicked && p.assignedTo == r
  {
    match IndexWhere(ps, (p: Participant) => p.id == santa && p.hasPicked)
    case None => None
    case Some(k) => assert ps[k] in ps; ps[k].assignedTo
  }

  function Annotate(items: seq<WishItem>, purchases: seq<Purchase>, santa: Id): (r: seq<RecipientItem>)
    ensures |r| == |items|
    ensures forall k :: 0 <= k < |items| ==> r[k] == RecipientItem(items[k], Bought(purchases, items[k].id, santa))
  {
    seq(|items|, k requires 0 <= k < |items| => RecipientItem(items[k], Bought(purchases, items[k].id, santa)))
  }

  /** `getRecipientItems` */
  function GetRecipientItems(ps: seq<Participant>, items: seq<WishItem>, purchases: seq<Purchase>, santa: Id): (r: Result<seq<RecipientItem>>)
    ensures r.Err? <==> DrawnRecipient(ps, santa).None?
    ensures r.Err? ==> r.error == NotDrawnMessage
    ensures r.Ok? ==> SortedBy(r.value, ListOrder)
  {
    match DrawnRecipient(ps, santa)
    case None => Err(NotDrawnMessage)
    case Some(recipient) =>
      Ok(SortBy(Annotate(Filter(items, OwnedBy(recipient)), purchases, santa), ListOrder))
  }

  /** The Santa sees exactly their recipient's own items, each once, each
      flagged as bought exactly when this Santa marked it. */
  lemma RecipientItemsExactly(ps: seq<Participant>, items: seq<WishItem>, purchases: seq<Purchase>, santa: Id)
    requires GetRecipientItems(ps, items, purchases, santa).Ok?
    ensures var rows := GetRecipientItems(ps, items, purchases, santa).value;
      var recipient := DrawnRecipient(ps, santa).value;
      && |rows| == |Filter(items, OwnedBy(recipient))|
      && (forall x :: x in rows ==> x.item in items && x.item.participant == Some(recipient))
      && (forall x :: x in rows ==> x.isPurchased == Bought(purchases, x.item.id, santa))
      && (forall w :: w in items && w.participant == Some(recipient) ==> exists x :: x in rows && x.item == w)
  {
    var recipient := DrawnRecipient(ps, santa).value;
    var mine := Filter(items, OwnedBy(recipient));
    var annotated := Annotate(mine, purchases, santa);
    var rows := SortBy(annotated, ListOrder);
    forall x | x in rows ensures x in annotated {
      assert x in multiset(rows);
    }
    forall x | x in annotated ensures x.item in mine && x.isPurchased == Bought(purchases, x.item.id, santa) {
      var k :| 0 <= k < |annotated| && annotated[k] == x;
    }
    forall w | w in items && w.participant == Some(recipient) ensures exists x :: x in rows && x.item == w {
      assert w in mine;
      var k :| 0 <= k < |mine| && mine[k] == w;
      assert annotated[k] in multiset(rows);
    }
  }

  // ---------------------------------------------------------------------
  // markPurchased

  /** The verification of `markPurchased`: the item belongs to the
      participant the caller drew. */
  predicate MayMark(ps: seq<Participant>, items: seq<WishItem>, itemId: int, santa: Id)
  {
    exists w, p :: w in items && p in ps && w.id == itemId && w.participant.Some?
      && p.id == santa && p.hasPicked && p.assignedTo == w.participant
  }

  function IsPair(itemId: int, santa: Id): Purchase -> bool
  {
    (p: Purchase) => p.item == itemId && p.santa == santa
  }

  function HasPurchaseId(id: Id): Purchase -> bool
  {
    (p: Purchase) => p.id == id
  }

  datatype Toggle = Toggle(purchases: seq<Purchase>, nextId: Id, isPurchased: bool)

  /** The toggle of `markPurchased`: delete the caller's record of the item
      if there is one, insert one otherwise. */
  function TogglePurchase(purchases: seq<Purchase>, nextId: Id, itemId: Id, santa: Id): Toggle
  {
    match IndexWhere(purchases, IsPair(itemId, santa))
    case Some(k) => Toggle(Filter(purchases, Not(HasPurchaseId(purchases[k].id))), nextId, false)
    case None => Toggle(purchases + [Purchase(nextId, itemId, santa)], nextId + 1, true)
  }

  predicate PurchasesValid(purchases: seq<Purchase>, nextId: Id)
  {
    DistinctBy(purchases, PurchaseKey) && AllBelow(purchases, PurchaseKey, nextId) && DistinctBy(purchases, PurchasePair)
  }

  /** The toggle reports the new state, flips the caller's record of the item
      and leaves every other record where it was. */
  lemma ToggleFlips(purchases: seq<Purchase>, nextId: Id, itemId: Id, santa: Id)
    requires PurchasesValid(purchases, nextId)
    ensures var t := TogglePurchase(purchases, nextId, itemId, santa);
      && PurchasesValid(t.purchases, t.nextId)
      && t.isPurchased == !Bought(purchases, itemId, santa)
      && Bought(t.purchases, itemId, santa) == t.isPurchased
      && (forall p :: p in purchases && !IsPair(itemId, santa)(p) ==> p in t.purchases)
      && (forall p :: p in t.purchases && !IsPair(itemId, santa)(p) ==> p in purchases)
  {
    var t := TogglePurchase(purchases, nextId, itemId, santa);
    match IndexWhere(purchases, IsPair(itemId, santa))
    case Some(k) =>
      var x := purchases[k];
      assert x in purchases;
      FilterKeepsDistinct(purchases, Not(HasPurchaseId(x.id)), PurchaseKey);
      FilterKeepsDistinct(purchases, Not(HasPurchaseId(x.id)), PurchasePair);
      FilterKeepsBelow(purchases, Not(HasPurchaseId(x.id)), PurchaseKey, nextId);
      forall p | p in t.purchases ensures !IsPair(itemId, santa)(p) {
        var j :| 0 <= j < |purchases| && purchases[j] == p;
        if j != k {
          DistinctPairs(purchases, j, k);
        }
      }
      forall p | p in purchases && !IsPair(itemId, santa)(p) ensures p in t.purchases {
        assert p.id != x.id;
      }
    case None =>
      var y := Purchase(nextId, itemId, santa);
      DistinctAppend(purchases, y, PurchaseKey, nextId);
      assert y in t.purchases;
      forall i, j | 0 <= i < j < |t.purchases| ensures PurchasePair(t.purchases[i]) != PurchasePair(t.purchases[j]) {
        if j == |purchases| {
          assert !IsPair(itemId, santa)(purchases[i]);
        }
      }
  }

  lemma DistinctPairs(purchases: seq<Purchase>, j: int, k: int)
    requires DistinctBy(purchases, PurchasePair) && DistinctBy(purchases, PurchaseKey)
    requires 0 <= j < |purchases| && 0 <= k < |purchases| && j != k
    ensures PurchasePair(purchases[j]) != PurchasePair(purchases[k])
    ensures purchases[j].id != purchases[k].id
  {
    if j < k {
      assert PurchaseKey(purchases[j]) != PurchaseKey(purchases[k]);
    } else {
      assert PurchaseKey(purchases[k]) != PurchaseKey(purchases[j]);
    }
  }

  /** Marking an unmarked item and marking it again gives back exactly the
      table it started from. */
  lemma ToggleTwiceRestores(purchases: seq<Purchase>, nextId: Id, itemId: Id, santa: Id)
    requires PurchasesValid(purchases, nextId)
    requires !Bought(purchases, itemId, santa)
    ensures var once := TogglePurchase(purchases, nextId, itemId, santa);
      TogglePurchase(once.purchases, once.nextId, itemId, santa).purchases == purchases
  {
    var y := Purchase(nextId, itemId, santa);
    var once := TogglePurchase(purchases, nextId, itemId, santa);
    IndexFindsPair(purchases, itemId, santa);
    assert once.purchases == purchases + [y];
    assert forall j :: 0 <= j < |purchases| ==> once.purchases[j] == purchases[j];
    var k := IndexWhere(once.purchases, IsPair(itemId, santa));
    assert IsPair(itemId, santa)(once.purchases[|purchases|]);
    assert k == Some(|purchases|);
    FilterDropsNew(purchases, y);
  }

  /** The lookup of the caller's record finds one exactly when there is one. */
  lemma IndexFindsPair(purchases: seq<Purchase>, itemId: Id, santa: Id)
    ensures IndexWhere(purchases, IsPair(itemId, santa)).Some? <==> Bought(purchases, itemId, santa)
  {
    var idx := IndexWhere(purchases, IsPair(itemId, santa));
    if idx.Some? {
      assert purchases[idx.value] in purchases;
    }
    if Bought(purchases, itemId, santa) {
      var p :| p in purchases && p.item == itemId && p.santa == santa;
      var j :| 0 <= j < |purchases| && purchases[j] == p;
      assert IsPair(itemId, santa)(purchases[j]);
    }
  }

  lemma {:induction false} FilterDropsNew(purchases: seq<Purchase>, y: Purchase)
    requires forall p :: p in purchases ==> p.id != y.id
    ensures Filter(purchases + [y], Not(HasPurchaseId(y.id))) == purchases
    decreases |purchases|
  {
    if purchases == [] {
      assert [y][1..] == [];
    } else {
      assert (purchases + [y])[1..] == purchases[1..] + [y];
      assert purchases[0] in purchases;
      FilterDropsNew(purchases[1..], y);
      assert purchases == [purchases[0]] + purchases[1..];
    }
  }

  /** Marking a marked item and marking it again leaves the same records of
      every (item, santa) pair. */
  lemma ToggleTwiceKeepsPairs(purchases: seq<Purchase>, nextId: Id, itemId: Id, santa: Id)
    requires PurchasesValid(purchases, nextId)
    ensures var once := TogglePurchase(purchases, nextId, itemId, santa);
      var twice := TogglePurchase(once.purchases, once.nextId, itemId, santa);
      && twice.isPurchased == Bought(purchases, itemId, santa)
      && forall a: Id, b: Id :: Bought(twice.purchases, a, b) == Bought(purchases, a, b)
  {
    var once := TogglePurchase(purchases, nextId, itemId, santa);
    ToggleFlips(purchases, nextId, itemId, santa);
    ToggleFlips(once.purchases, once.nextId, itemId, santa);
    var twice := TogglePurchase(once.purchases, once.nextId, itemId, santa);
    forall a: Id, b: Id ensures Bought(twice.purchases, a, b) == Bought(purchases, a, b) {
      if a != itemId || b != santa {
        if Bought(purchases, a, b) {
          var p :| p in purchases && p.item == a && p.santa == b;
          assert !IsPair(itemId, santa)(p);
          assert p in once.purchases;
        }
        if Bought(twice.purchases, a, b) {
          var p :| p in twice.purchases && p.item == a && p.santa == b;
          assert !IsPair(itemId, santa)(p);
          assert p in once.purchases;
        }
      }
    }
  }

  /** `markPurchased` */
  method MarkPurchased(db: Database, santa: Id, itemId: Id) returns (r: Reply)
    requires db.Valid()
    modifies db`purchases, db`nextPurchaseId
    ensures db.Valid()
    ensures !MayMark(db.participants, db.items, itemId, santa) ==>
      r == Refused(403, NotRecipientMessage) && db.purchases == old(db.purchases)
      && db.nextPurchaseId == old(db.nextPurchaseId)
    ensures MayMark(db.participants, db.items, itemId, santa) ==>
      var t := TogglePurchase(old(db.purchases), old(db.nextPurchaseId), itemId, santa);
      r == Toggled(t.isPurchased) && db.purchases == t.purchases && db.nextPurchaseId == t.nextId
  {
    if !MayMark(db.participants, db.items, itemId, santa) {
      return Refused(403, NotRecipientMessage);
    }
    var t := TogglePurchase(db.purchases, db.nextPurchaseId, itemId, santa);
    ToggleFlips(db.purchases, db.nextPurchaseId, itemId, santa);
    db.purchases, db.nextPurchaseId := t.purchases, t.nextId;
    r := Toggled(t.isPurchased);
  }

  // ---------------------------------------------------------------------
  // getAllWishlists

  datatype ListKind = ParticipantList | NonParticipantList

  /** One list of the all-wishlists page. */
  datatype Wishlist = Wishlist(id: Id, name: string, kind: ListKind, managedByName: Option<string>, items: seq<WishItem>)

  function OwnedByNonParticipant(owner: Id): WishItem -> bool
  {
    (w: WishItem) => w.nonParticipant == Some(owner)
  }

  function HasManager(ps: seq<Participant>): NonParticipant -> bool
  {
    (n: NonParticipant) => NameOf(ps, n.managedBy).Some?
  }

  function ParticipantLists(ps: seq<Participant>, sorted: seq<WishItem>): (r: seq<Wishlist>)
    ensures |r| == |ps|
    ensures forall i :: 0 <= i < |ps| ==>
      r[i] == Wishlist(ps[i].id, ps[i].firstName, ParticipantList, None, Filter(sorted, OwnedBy(ps[i].id)))
  {
    seq(|ps|, i requires 0 <= i < |ps| =>
      Wishlist(ps[i].id, ps[i].firstName, ParticipantList, None, Filter(sorted, OwnedBy(ps[i].id))))
  }

  function NonParticipantLists(ps: seq<Participant>, nps: seq<NonParticipant>, sorted: seq<WishItem>): (r: seq<Wishlist>)
    ensures |r| == |nps|
    ensures forall i :: 0 <= i < |nps| ==>
      r[i] == Wishlist(nps[i].id, nps[i].name, NonParticipantList, NameOf(ps, nps[i].managedBy),
                       Filter(sorted, OwnedByNonParticipant(nps[i].id)))
  {
    seq(|nps|, i requires 0 <= i < |nps| =>
      Wishlist(nps[i].id, nps[i].name, NonParticipantList, NameOf(ps, nps[i].managedBy),
               Filter(sorted, OwnedByNonParticipant(nps[i].id))))
  }

  /** `getAllWishlists`: the participants' lists, then the lists of the
      non-participants whose manager exists. */
  function GetAllWishlists(ps: seq<Participant>, nps: seq<NonParticipant>, items: seq<WishItem>): seq<Wishlist>
  {
    var sorted := SortBy(items, ItemOrder);
    ParticipantLists(ps, sorted) + NonParticipantLists(ps, Filter(nps, HasManager(ps)), sorted)
  }

  /** Sorting keeps the items. */
  lemma SortKeepsItems(items: seq<WishItem>)
    ensures forall w :: w in SortBy(items, ItemOrder) <==> w in items
  {
    var sorted := SortBy(items, ItemOrder);
    forall w ensures w in sorted <==> w in items {
      assert w in sorted <==> w in multiset(sorted);
    }
  }

  /** Every participant has a list, first and in table order, holding
      exactly their own items in display order. */
  lemma ParticipantListsGroup(ps: seq<Participant>, nps: seq<NonParticipant>, items: seq<WishItem>, i: nat)
    requires i < |ps|
    ensures var l := GetAllWishlists(ps, nps, items)[i];
      && l.id == ps[i].id && l.name == ps[i].firstName && l.kind == ParticipantList
      && (forall w :: w in l.items <==> w in items && w.participant == Some(ps[i].id))
      && SortedBy(l.items, ItemOrder)
  {
    var sorted := SortBy(items, ItemOrder);
    SortKeepsItems(items);
    FilterKeepsSorted(sorted, OwnedBy(ps[i].id), ItemOrder);
  }

  /** After them comes one list per non-participant whose manager exists,
      holding exactly that non-participant's items, with the manager's
      name. */
  lemma NonParticipantListsGroup(ps: seq<Participant>, nps: seq<NonParticipant>, items: seq<WishItem>, i: nat)
    requires i < |Filter(nps, HasManager(ps))|
    ensures var joined := Filter(nps, HasManager(ps));
      var lists := GetAllWishlists(ps, nps, items);
      && |lists| == |ps| + |joined|
      && var l := lists[|ps| + i];
      && l.id == joined[i].id && l.name == joined[i].name && l.kind == NonParticipantList
      && l.managedByName == NameOf(ps, joined[i].managedBy) && l.managedByName.Some?
      && (forall w :: w in l.items <==> w in items && w.nonParticipant == Some(joined[i].id))
      && SortedBy(l.items, ItemOrder)
  {
    var sorted := SortBy(items, ItemOrder);
    var joined := Filter(nps, HasManager(ps));
    assert joined[i] in joined;
    SortKeepsItems(items);
    FilterKeepsSorted(sorted, OwnedByNonParticipant(joined[i].id), ItemOrder);
  }

  lemma {:induction false} FilterKeepsSorted<T(!new)>(s: seq<T>, f: T -> bool, key: T -> (int, int))
    requires SortedBy(s, key)
    ensures SortedBy(Filter(s, f), key)
    decreases |s|
  {
    if s != [] {
      FilterKeepsSorted(s[1..], f, key);
      var rest := Filter(s[1..], f);
      forall y | y in rest ensures LexLe(key(s[0]), key(y)) {
        var j :| 0 <= j < |s[1..]| && s[1..][j] == y;
        assert s[j + 1] == y;
      }
    }
  }
}
