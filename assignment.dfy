/** The assignment engine: who a participant may draw, the one-step deadlock
    lookahead, the draw itself, reset, the game status and the can-pick
    check. */
module AssignmentService {
  import opened Common
  import opened Schema
  import NotificationService

  // ---------------------------------------------------------------------
  // Candidates

  /** Somebody's `assigned_to_id` is `id`. */
  predicate IsAssigned(ps: seq<Participant>, id: Id)
  {
    exists p :: p in ps && p.assignedTo == Some(id)
  }

  /** Somebody other than `drawer` has `assigned_to_id` = `id`. */
  predicate IsAssignedExcept(ps: seq<Participant>, id: Id, drawer: Id)
  {
    exists p :: p in ps && p.assignedTo == Some(id) && p.id != drawer
  }

  function IsCandidate(ps: seq<Participant>, rules: seq<ExclusionRule>, drawer: Id): Participant -> bool
  {
    (c: Participant) => c.id != drawer && !IsAssigned(ps, c.id) && !Excludes(rules, drawer, c.id)
  }

  /** `getAvailableRecipients(drawer)`: everybody but the drawer, minus anyone
      already drawn, minus anyone the drawer excludes. */
  function AvailableRecipients(ps: seq<Participant>, rules: seq<ExclusionRule>, drawer: Id): (r: seq<Participant>)
    ensures forall c :: c in r ==> c in ps && c.id != drawer && !IsAssigned(ps, c.id) && !Excludes(rules, drawer, c.id)
    ensures forall c :: c in ps && c.id != drawer && !IsAssigned(ps, c.id) && !Excludes(rules, drawer, c.id) ==> c in r
  {
    Filter(ps, IsCandidate(ps, rules, drawer))
  }

  // ---------------------------------------------------------------------
  // wouldCauseDeadlock

  function IsUnpickedOther(drawer: Id): Participant -> bool
  {
    (u: Participant) => !u.hasPicked && u.id != drawer
  }

  /** The other participants that have not picked yet. */
  function UnpickedOthers(ps: seq<Participant>, drawer: Id): seq<Participant>
  {
    Filter(ps, IsUnpickedOther(drawer))
  }

  function IsOption(ps: seq<Participant>, rules: seq<ExclusionRule>, drawer: Id, candidate: Id, u: Id): Participant -> bool
  {
    (p: Participant) => p.id != u && p.id != candidate && !IsAssignedExcept(ps, p.id, drawer)
                        && !Excludes(rules, u, p.id)
  }

  /** The count query of the lookahead: whom `u` could still draw if
      `drawer` took `candidate`. */
  function OptionsAfter(ps: seq<Participant>, rules: seq<ExclusionRule>, drawer: Id, candidate: Id, u: Id): seq<Participant>
  {
    Filter(ps, IsOption(ps, rules, drawer, candidate, u))
  }

  /** Giving `candidate` to `drawer` would strand some other un-picked
      participant. */
  predicate Deadlocked(ps: seq<Participant>, rules: seq<ExclusionRule>, drawer: Id, candidate: Id)
  {
    exists u :: u in UnpickedOthers(ps, drawer) && OptionsAfter(ps, rules, drawer, candidate, u.id) == []
  }

  /** `wouldCauseDeadlock`: a pass over the other un-picked participants that
      stops at the first one left without options. */
  method WouldCauseDeadlock(ps: seq<Participant>, rules: seq<ExclusionRule>, drawer: Id, candidate: Id)
    returns (r: bool)
    ensures r <==> Deadlocked(ps, rules, drawer, candidate)
    ensures UnpickedOthers(ps, drawer) == [] ==> !r
  {
    var unpicked := UnpickedOthers(ps, drawer);
    if |unpicked| == 0 {
      return false;
    }
    var i := 0;
    while i < |unpicked|
      invariant 0 <= i <= |unpicked|
      invariant forall j :: 0 <= j < i ==> OptionsAfter(ps, rules, drawer, candidate, unpicked[j].id) != []
    {
      var count := |OptionsAfter(ps, rules, drawer, candidate, unpicked[i].id)|;
      if count == 0 {
        return true;
      }
      i := i + 1;
    }
    return false;
  }

  // ---------------------------------------------------------------------
  // drawAssignment

  /** What `drawAssignment` reports. */
  datatype DrawResult =
    | NotFound
    | AlreadyPicked(assignedToId: Id, assignedTo: string)
    | NoCandidates
    | NoSafeCandidates
    | Drawn(assignedToId: Id, assignedTo: string)

  function IsSafe(ps: seq<Participant>, rules: seq<ExclusionRule>, drawer: Id): Participant -> bool
  {
    (c: Participant) => !Deadlocked(ps, rules, drawer, c.id)
  }

  /** The candidates that survive the lookahead, in candidate order. */
  function SafeRecipients(ps: seq<Participant>, rules: seq<ExclusionRule>, drawer: Id): seq<Participant>
  {
    Filter(AvailableRecipients(ps, rules, drawer), IsSafe(ps, rules, drawer))
  }

  /** `Math.floor(Math.random() * n)` */
  function PickIndex(random: real, n: nat): (k: nat)
    requires 0.0 <= random < 1.0 && n > 0
    ensures k < n
  {
    var k := (random * n as real).Floor;
    assert random * n as real < n as real;
    k
  }

  /** The UPDATE of the draw: only the drawer's row changes. */
  function Commit(ps: seq<Participant>, drawer: Id, recipient: Id, now: Time): seq<Participant>
  {
    seq(|ps|, i requires 0 <= i < |ps| =>
      if ps[i].id == drawer then ps[i].(assignedTo := Some(recipient), hasPicked := true, pickedAt := Some(now))
      else ps[i])
  }

  /** The safe recipient that the random number selects. */
  function Chosen(ps: seq<Participant>, rules: seq<ExclusionRule>, drawer: Id, random: real): (c: Participant)
    requires 0.0 <= random < 1.0 && SafeRecipients(ps, rules, drawer) != []
    ensures c in SafeRecipients(ps, rules, drawer)
  {
    var safe := SafeRecipients(ps, rules, drawer);
    safe[PickIndex(random, |safe|)]
  }

  /** The outcome of `drawAssignment` and the participant table after it. */
  function Draw(ps: seq<Participant>, rules: seq<ExclusionRule>, drawer: Id, random: real, now: Time): (DrawResult, seq<Participant>)
    requires 0.0 <= random < 1.0
  {
    match FindParticipant(ps, drawer)
    case None => (NotFound, ps)
    case Some(k) =>
      var p := ps[k];
      if p.hasPicked && p.assignedTo.Some? then
        var name := match NameOf(ps, p.assignedTo.value) case Some(n) => n case None => "Unknown";
        (AlreadyPicked(p.assignedTo.value, name), ps)
      else if AvailableRecipients(ps, rules, drawer) == [] then (NoCandidates, ps)
      else
        if SafeRecipients(ps, rules, drawer) == [] then (NoSafeCandidates, ps)
        else
          var c := Chosen(ps, rules, drawer, random);
          (Drawn(c.id, c.firstName), Commit(ps, drawer, c.id, now))
  }

  /** The loop of `drawAssignment` that keeps the candidates for which
      `wouldCauseDeadlock` says no. */
  method FilterSafe(ps: seq<Participant>, rules: seq<ExclusionRule>, drawer: Id, available: seq<Participant>)
    returns (safe: seq<Participant>)
    ensures safe == Filter(available, IsSafe(ps, rules, drawer))
  {
    safe := [];
    var i := 0;
    while i < |available|
      invariant 0 <= i <= |available|
      invariant safe == Filter(available[..i], IsSafe(ps, rules, drawer))
    {
      FilterPrefixStep(available, i, IsSafe(ps, rules, drawer));
      var deadlock := WouldCauseDeadlock(ps, rules, drawer, available[i].id);
      if !deadlock {
        safe := safe + [available[i]];
      }
      i := i + 1;
    }
    assert available[..i] == available;
  }

  /** `drawAssignment`: the draw, then the drawer's assignment text, whose
      outcome the draw does not wait for. */
  method DrawAssignment(db: Database, drawer: Id, random: real, env: Env, now: Time) returns (r: DrawResult)
    requires 0.0 <= random < 1.0
    requires db.Valid()
    modifies db`participants, db`queue, db`nextQueueId
    ensures db.Valid()
    ensures (r, db.participants) == Draw(old(db.participants), db.exclusions, drawer, random, now)
    ensures r.Drawn? ==>
      var sent := NotificationService.PlanEntries(
        NotificationService.AssignmentPlan(db.participants, drawer, r.assignedTo, env),
        old(db.nextQueueId), "assignment", NotificationService.AssignmentPriority, now);
      db.queue == old(db.queue) + sent && db.nextQueueId == old(db.nextQueueId) + |sent|
    ensures !r.Drawn? ==> db.queue == old(db.queue) && db.nextQueueId == old(db.nextQueueId)
  {
    r := CommitDraw(db, drawer, random, now);
    if r.Drawn? {
      var notified := NotificationService.NotifyAssignment(db, drawer, r.assignedTo, env, now);
    }
  }

  /** The draw itself: builds the safe list with one lookahead per candidate
      and commits the randomly chosen one. */
  method CommitDraw(db: Database, drawer: Id, random: real, now: Time) returns (r: DrawResult)
    requires 0.0 <= random < 1.0
    requires db.Valid()
    modifies db`participants
    ensures db.Valid()
    ensures (r, db.participants) == Draw(old(db.participants), db.exclusions, drawer, random, now)
  {
    var ps, rules := db.participants, db.exclusions;
    var found := FindParticipant(ps, drawer);
    if found.None? {
      return NotFound;
    }
    var p := ps[found.value];
    if p.hasPicked && p.assignedTo.Some? {
      var name := NameOf(ps, p.assignedTo.value);
      return AlreadyPicked(p.assignedTo.value, if name.Some? then name.value else "Unknown");
    }
    var available := AvailableRecipients(ps, rules, drawer);
    if |available| == 0 {
      return NoCandidates;
    }
    var safe := FilterSafe(ps, rules, drawer, available);
    if |safe| == 0 {
      return NoSafeCandidates;
    }
    var selected := safe[PickIndex(random, |safe|)];
    CommitKeepsOrder(ps, drawer, selected.id, now);
    db.SetParticipants(Commit(ps, drawer, selected.id, now));
    r := Drawn(selected.id, selected.firstName);
  }

  // ---------------------------------------------------------------------
  // The consistency of the assignment columns

  predicate NoSelfAssignment(ps: seq<Participant>)
  {
    forall p :: p in ps && p.assignedTo.Some? ==> p.assignedTo.value != p.id
  }

  predicate RespectsExclusions(ps: seq<Participant>, rules: seq<ExclusionRule>)
  {
    forall p :: p in ps && p.assignedTo.Some? ==> !Excludes(rules, p.id, p.assignedTo.value)
  }

  predicate NoSharedRecipient(ps: seq<Participant>)
  {
    forall i, j :: 0 <= i < j < |ps| && ps[i].assignedTo.Some? ==> ps[i].assignedTo != ps[j].assignedTo
  }

  predicate PickedIffAssigned(ps: seq<Participant>)
  {
    forall p :: p in ps ==> (p.hasPicked <==> p.assignedTo.Some?) && (p.hasPicked <==> p.pickedAt.Some?)
  }

  predicate RecipientsExist(ps: seq<Participant>)
  {
    forall p :: p in ps && p.assignedTo.Some? ==> exists q :: q in ps && q.id == p.assignedTo.value
  }

  /** No self-assignment, no exclusion violated, nobody drawn twice,
      `has_picked` exactly when there is an assignment (and a pick time),
      and every recipient is a participant. */
  predicate Consistent(ps: seq<Participant>, rules: seq<ExclusionRule>)
  {
    && NoSelfAssignment(ps)
    && RespectsExclusions(ps, rules)
    && NoSharedRecipient(ps)
    && PickedIffAssigned(ps)
    && RecipientsExist(ps)
  }

  lemma CommitAt(ps: seq<Participant>, drawer: Id, recipient: Id, now: Time, i: int)
    requires 0 <= i < |ps|
    ensures |Commit(ps, drawer, recipient, now)| == |ps|
    ensures var q := Commit(ps, drawer, recipient, now)[i];
      && q.id == ps[i].id && q.firstName == ps[i].firstName
      && (ps[i].id != drawer ==> q == ps[i])
      && (ps[i].id == drawer ==>
            q == ps[i].(assignedTo := Some(recipient), hasPicked := true, pickedAt := Some(now)))
  {
  }

  lemma CommitRows(ps: seq<Participant>, drawer: Id, recipient: Id, now: Time)
    ensures |Commit(ps, drawer, recipient, now)| == |ps|
    ensures forall i {:trigger Commit(ps, drawer, recipient, now)[i]} :: 0 <= i < |ps| ==>
      var q := Commit(ps, drawer, recipient, now)[i];
      && q.id == ps[i].id && q.firstName == ps[i].firstName
      && (ps[i].id != drawer ==> q == ps[i])
      && (ps[i].id == drawer ==>
            q == ps[i].(assignedTo := Some(recipient), hasPicked := true, pickedAt := Some(now)))
  {
  }

  lemma CommitKeepsOrder(ps: seq<Participant>, drawer: Id, recipient: Id, now: Time)
    requires SortedById(ps)
    ensures SortedById(Commit(ps, drawer, recipient, now))
  {
    CommitRows(ps, drawer, recipient, now);
  }

  lemma CommitNoSelf(ps: seq<Participant>, drawer: Id, recipient: Id, now: Time)
    requires NoSelfAssignment(ps) && recipient != drawer
    ensures NoSelfAssignment(Commit(ps, drawer, recipient, now))
  {
    var qs := Commit(ps, drawer, recipient, now);
    forall q | q in qs && q.assignedTo.Some? ensures q.assignedTo.value != q.id {
      var i :| 0 <= i < |qs| && qs[i] == q;
      CommitAt(ps, drawer, recipient, now, i);
      assert ps[i] in ps;
    }
  }

  lemma CommitRespects(ps: seq<Participant>, rules: seq<ExclusionRule>, drawer: Id, recipient: Id, now: Time)
    requires RespectsExclusions(ps, rules) && !Excludes(rules, drawer, recipient)
    ensures RespectsExclusions(Commit(ps, drawer, recipient, now), rules)
  {
    var qs := Commit(ps, drawer, recipient, now);
    forall q | q in qs && q.assignedTo.Some? ensures !Excludes(rules, q.id, q.assignedTo.value) {
      var i :| 0 <= i < |qs| && qs[i] == q;
      CommitAt(ps, drawer, recipient, now, i);
      assert ps[i] in ps;
    }
  }

  lemma CommitNoShared(ps: seq<Participant>, drawer: Id, recipient: Id, now: Time)
    requires NoSharedRecipient(ps) && SortedById(ps) && !IsAssigned(ps, recipient)
    ensures NoSharedRecipient(Commit(ps, drawer, recipient, now))
  {
    var qs := Commit(ps, drawer, recipient, now);
    forall i, j | 0 <= i < j < |qs| && qs[i].assignedTo.Some? ensures qs[i].assignedTo != qs[j].assignedTo {
      CommitAt(ps, drawer, recipient, now, i);
      CommitAt(ps, drawer, recipient, now, j);
      assert ps[i].id < ps[j].id;
      assert ps[i] in ps && ps[j] in ps;
    }
  }

  lemma CommitPickedIff(ps: seq<Participant>, drawer: Id, recipient: Id, now: Time)
    requires PickedIffAssigned(ps)
    ensures PickedIffAssigned(Commit(ps, drawer, recipient, now))
  {
    var qs := Commit(ps, drawer, recipient, now);
    forall q | q in qs ensures (q.hasPicked <==> q.assignedTo.Some?) && (q.hasPicked <==> q.pickedAt.Some?) {
      var i :| 0 <= i < |qs| && qs[i] == q;
      CommitAt(ps, drawer, recipient, now, i);
      assert ps[i] in ps;
    }
  }

  lemma CommitRecipientsExist(ps: seq<Participant>, drawer: Id, recipient: Id, now: Time)
    requires RecipientsExist(ps) && exists c :: c in ps && c.id == recipient
    ensures RecipientsExist(Commit(ps, drawer, recipient, now))
  {
    var qs := Commit(ps, drawer, recipient, now);
    forall q | q in qs && q.assignedTo.Some? ensures exists q' :: q' in qs && q'.id == q.assignedTo.value {
      var i :| 0 <= i < |qs| && qs[i] == q;
      CommitAt(ps, drawer, recipient, now, i);
      var t: Participant;
      if ps[i].id == drawer {
        t :| t in ps && t.id == recipient;
      } else {
        assert ps[i] in ps;
        t :| t in ps && t.id == q.assignedTo.value;
      }
      var j :| 0 <= j < |ps| && ps[j] == t;
      CommitAt(ps, drawer, recipient, now, j);
      assert qs[j] in qs;
    }
  }

  /** After the commit, `x` is drawn exactly when it is the new recipient or
      somebody other than the drawer had drawn it before. */
  lemma IsAssignedAfterCommit(ps: seq<Participant>, drawer: Id, recipient: Id, now: Time, x: Id)
    requires exists p :: p in ps && p.id == drawer
    ensures IsAssigned(Commit(ps, drawer, recipient, now), x) <==> x == recipient || IsAssignedExcept(ps, x, drawer)
  {
    var qs := Commit(ps, drawer, recipient, now);
    CommitRows(ps, drawer, recipient, now);
    if IsAssigned(qs, x) {
      var q :| q in qs && q.assignedTo == Some(x);
      var i :| 0 <= i < |qs| && qs[i] == q;
      if ps[i].id != drawer {
        assert ps[i] in ps;
      }
    }
    if x == recipient {
      var p :| p in ps && p.id == drawer;
      var i :| 0 <= i < |ps| && ps[i] == p;
      assert qs[i] in qs;
    } else if IsAssignedExcept(ps, x, drawer) {
      var p :| p in ps && p.assignedTo == Some(x) && p.id != drawer;
      var i :| 0 <= i < |ps| && ps[i] == p;
      assert qs[i] in qs;
    }
  }

  /** For any `u`, the lookahead's count query gives the size of `u`'s
      candidate list in the table after the commit. */
  lemma OptionsAfterCommit(ps: seq<Participant>, rules: seq<ExclusionRule>, drawer: Id, candidate: Id, now: Time, u: Id)
    requires exists p :: p in ps && p.id == drawer
    ensures |AvailableRecipients(Commit(ps, drawer, candidate, now), rules, u)|
         == |OptionsAfter(ps, rules, drawer, candidate, u)|
  {
    var qs := Commit(ps, drawer, candidate, now);
    CommitRows(ps, drawer, candidate, now);
    var f, g := IsCandidate(qs, rules, u), IsOption(ps, rules, drawer, candidate, u);
    forall k | 0 <= k < |qs| ensures f(qs[k]) == g(ps[k]) {
      IsAssignedAfterCommit(ps, drawer, candidate, now, ps[k].id);
    }
    FilterSameLength(qs, ps, f, g);
  }

  /** The lookahead is exactly a simulation of the commit: giving
      `candidate` to `drawer` is a deadlock iff, in the table after that
      commit, some participant who has not picked has no available
      recipient. */
  lemma DeadlockIsLookahead(ps: seq<Participant>, rules: seq<ExclusionRule>, drawer: Id, candidate: Id, now: Time)
    requires exists p :: p in ps && p.id == drawer
    ensures var qs := Commit(ps, drawer, candidate, now);
      Deadlocked(ps, rules, drawer, candidate) <==>
        exists u :: u in qs && !u.hasPicked && AvailableRecipients(qs, rules, u.id) == []
  {
    if Deadlocked(ps, rules, drawer, candidate) {
      DeadlockStrandsAfterCommit(ps, rules, drawer, candidate, now);
    }
    var qs := Commit(ps, drawer, candidate, now);
    if exists u :: u in qs && !u.hasPicked && AvailableRecipients(qs, rules, u.id) == [] {
      var u :| u in qs && !u.hasPicked && AvailableRecipients(qs, rules, u.id) == [];
      StrandedAfterCommitIsDeadlock(ps, rules, drawer, candidate, now, u);
    }
  }

  lemma DeadlockStrandsAfterCommit(ps: seq<Participant>, rules: seq<ExclusionRule>, drawer: Id, candidate: Id, now: Time)
    requires exists p :: p in ps && p.id == drawer
    requires Deadlocked(ps, rules, drawer, candidate)
    ensures var qs := Commit(ps, drawer, candidate, now);
      exists u :: u in qs && !u.hasPicked && AvailableRecipients(qs, rules, u.id) == []
  {
    var qs := Commit(ps, drawer, candidate, now);
    var u :| u in UnpickedOthers(ps, drawer) && OptionsAfter(ps, rules, drawer, candidate, u.id) == [];
    var i :| 0 <= i < |ps| && ps[i] == u;
    assert qs[i] == u;
    OptionsAfterCommit(ps, rules, drawer, candidate, now, u.id);
    assert u in qs;
  }

  lemma StrandedAfterCommitIsDeadlock(ps: seq<Participant>, rules: seq<ExclusionRule>, drawer: Id, candidate: Id, now: Time, u: Participant)
    requires exists p :: p in ps && p.id == drawer
    requires var qs := Commit(ps, drawer, candidate, now);
      u in qs && !u.hasPicked && AvailableRecipients(qs, rules, u.id) == []
    ensures Deadlocked(ps, rules, drawer, candidate)
  {
    var qs := Commit(ps, drawer, candidate, now);
    var i :| 0 <= i < |qs| && qs[i] == u;
    assert ps[i] == u;
    assert u in UnpickedOthers(ps, drawer);
    OptionsAfterCommit(ps, rules, drawer, candidate, now, u.id);
  }

  /** A failed draw or a repeated one leaves the table as it was. */
  lemma DrawFailureChangesNothing(ps: seq<Participant>, rules: seq<ExclusionRule>, drawer: Id, random: real, now: Time)
    requires 0.0 <= random < 1.0
    ensures !Draw(ps, rules, drawer, random, now).0.Drawn? ==> Draw(ps, rules, drawer, random, now).1 == ps
    ensures Draw(ps, rules, drawer, random, now).0 == NotFound <==> forall p :: p in ps ==> p.id != drawer
    ensures Draw(ps, rules, drawer, random, now).0 in {NoCandidates, NoSafeCandidates} ==>
      SafeRecipients(ps, rules, drawer) == []
    ensures Draw(ps, rules, drawer, random, now).0 == NoCandidates ==> AvailableRecipients(ps, rules, drawer) == []
  {
    if Draw(ps, rules, drawer, random, now).0 == NoCandidates {
      assert AvailableRecipients(ps, rules, drawer) == [];
      assert SafeRecipients(ps, rules, drawer) == [];
    }
  }

  /** The shape of a successful draw: the drawer's row was found and had not
      picked, and the chosen safe recipient is committed. */
  lemma DrawnShape(ps: seq<Participant>, rules: seq<ExclusionRule>, drawer: Id, random: real, now: Time)
    requires 0.0 <= random < 1.0
    requires Draw(ps, rules, drawer, random, now).0.Drawn?
    ensures FindParticipant(ps, drawer).Some?
    ensures var p := ps[FindParticipant(ps, drawer).value]; !(p.hasPicked && p.assignedTo.Some?)
    ensures SafeRecipients(ps, rules, drawer) != []
    ensures var c := Chosen(ps, rules, drawer, random);
      && Draw(ps, rules, drawer, random, now) == (Drawn(c.id, c.firstName), Commit(ps, drawer, c.id, now))
      && c in AvailableRecipients(ps, rules, drawer)
  {
  }

  /** A successful draw picks one of the safe recipients, who is not the
      drawer, not excluded by the drawer and not drawn by anybody, and only
      the drawer's row changes. */
  lemma DrawSuccess(ps: seq<Participant>, rules: seq<ExclusionRule>, drawer: Id, random: real, now: Time)
    requires 0.0 <= random < 1.0
    requires Draw(ps, rules, drawer, random, now).0.Drawn?
    ensures var (r, qs) := Draw(ps, rules, drawer, random, now);
      && (exists c :: c in SafeRecipients(ps, rules, drawer) && c.id == r.assignedToId && c.firstName == r.assignedTo)
      && r.assignedToId != drawer
      && !Excludes(rules, drawer, r.assignedToId)
      && !IsAssigned(ps, r.assignedToId)
      && |qs| == |ps|
      && (forall i :: 0 <= i < |ps| && ps[i].id != drawer ==> qs[i] == ps[i])
      && (forall i :: 0 <= i < |ps| && ps[i].id == drawer ==>
            qs[i] == ps[i].(assignedTo := Some(r.assignedToId), hasPicked := true, pickedAt := Some(now)))
  {
    DrawnShape(ps, rules, drawer, random, now);
    var c := Chosen(ps, rules, drawer, random);
    CommitRows(ps, drawer, c.id, now);
  }

  /** `Math.floor(k / n * n)` is `k`. */
  lemma PickIndexHits(k: nat, n: nat)
    requires k < n
    ensures 0.0 <= k as real / n as real < 1.0
    ensures PickIndex(k as real / n as real, n) == k
  {
    var x := k as real / n as real;
    assert x * n as real == k as real;
  }

  /** Every safe recipient is chosen by some value of the random number: the
      draw can reach all of them. */
  lemma EverySafeRecipientReachable(ps: seq<Participant>, rules: seq<ExclusionRule>, drawer: Id, now: Time, c: Participant)
    requires SortedById(ps)
    requires exists p :: p in ps && p.id == drawer && !(p.hasPicked && p.assignedTo.Some?)
    requires c in SafeRecipients(ps, rules, drawer)
    ensures exists random: real :: 0.0 <= random < 1.0 && Draw(ps, rules, drawer, random, now).0 == Drawn(c.id, c.firstName)
  {
    var safe := SafeRecipients(ps, rules, drawer);
    var k :| 0 <= k < |safe| && safe[k] == c;
    PickIndexHits(k, |safe|);
    var random := k as real / |safe| as real;
    DrawerRowFound(ps, drawer);
    DrawChosen(ps, rules, drawer, random, now);
    assert Chosen(ps, rules, drawer, random) == c;
    assert Draw(ps, rules, drawer, random, now).0 == Drawn(c.id, c.firstName);
  }

  lemma DrawerRowFound(ps: seq<Participant>, drawer: Id)
    requires SortedById(ps)
    requires exists p :: p in ps && p.id == drawer && !(p.hasPicked && p.assignedTo.Some?)
    ensures FindParticipant(ps, drawer).Some?
    ensures var p := ps[FindParticipant(ps, drawer).value]; !(p.hasPicked && p.assignedTo.Some?)
  {
    var p :| p in ps && p.id == drawer && !(p.hasPicked && p.assignedTo.Some?);
    var j :| 0 <= j < |ps| && ps[j] == p;
    FindUnique(ps, j);
  }

  /** Past the guards, the draw commits the chosen safe recipient. */
  lemma DrawChosen(ps: seq<Participant>, rules: seq<ExclusionRule>, drawer: Id, random: real, now: Time)
    requires 0.0 <= random < 1.0
    requires FindParticipant(ps, drawer).Some?
    requires var p := ps[FindParticipant(ps, drawer).value]; !(p.hasPicked && p.assignedTo.Some?)
    requires SafeRecipients(ps, rules, drawer) != []
    ensures var c := Chosen(ps, rules, drawer, random);
      Draw(ps, rules, drawer, random, now) == (Drawn(c.id, c.firstName), Commit(ps, drawer, c.id, now))
  {
    assert AvailableRecipients(ps, rules, drawer) != [];
  }

  /** Sequential draws keep the table consistent: the core invariant of the
      exchange. */
  lemma DrawPreservesConsistency(ps: seq<Participant>, rules: seq<ExclusionRule>, drawer: Id, random: real, now: Time)
    requires 0.0 <= random < 1.0
    requires SortedById(ps) && Consistent(ps, rules)
    ensures SortedById(Draw(ps, rules, drawer, random, now).1)
    ensures Consistent(Draw(ps, rules, drawer, random, now).1, rules)
  {
    if Draw(ps, rules, drawer, random, now).0.Drawn? {
      DrawnShape(ps, rules, drawer, random, now);
      var c := Chosen(ps, rules, drawer, random);
      CommitKeepsOrder(ps, drawer, c.id, now);
      CommitNoSelf(ps, drawer, c.id, now);
      CommitRespects(ps, rules, drawer, c.id, now);
      CommitNoShared(ps, drawer, c.id, now);
      CommitPickedIff(ps, drawer, c.id, now);
      CommitRecipientsExist(ps, drawer, c.id, now);
    }
  }

  /** After a successful draw every participant who has not picked still has
      somebody to draw. */
  lemma DrawLeavesEveryoneAnOption(ps: seq<Participant>, rules: seq<ExclusionRule>, drawer: Id, random: real, now: Time)
    requires 0.0 <= random < 1.0
    requires Draw(ps, rules, drawer, random, now).0.Drawn?
    ensures var qs := Draw(ps, rules, drawer, random, now).1;
      forall u :: u in qs && !u.hasPicked ==> AvailableRecipients(qs, rules, u.id) != []
  {
    DrawnShape(ps, rules, drawer, random, now);
    var c := Chosen(ps, rules, drawer, random);
    var k := FindParticipant(ps, drawer).value;
    assert ps[k] in ps;
    DeadlockIsLookahead(ps, rules, drawer, c.id, now);
  }

  /** The table after a successful draw: still in id order, the drawer's row
      is found first and holds the pick, and the recipient's name is found. */
  lemma DrawnTable(ps: seq<Participant>, rules: seq<ExclusionRule>, drawer: Id, random: real, now: Time)
    requires 0.0 <= random < 1.0
    requires SortedById(ps)
    requires Draw(ps, rules, drawer, random, now).0.Drawn?
    ensures var (r, qs) := Draw(ps, rules, drawer, random, now);
      && SortedById(qs)
      && FindParticipant(qs, drawer).Some?
      && qs[FindParticipant(qs, drawer).value].hasPicked
      && qs[FindParticipant(qs, drawer).value].assignedTo == Some(r.assignedToId)
      && qs[FindParticipant(qs, drawer).value].pickedAt == Some(now)
      && NameOf(qs, r.assignedToId) == Some(r.assignedTo)
  {
    DrawnShape(ps, rules, drawer, random, now);
    var c := Chosen(ps, rules, drawer, random);
    var qs := Commit(ps, drawer, c.id, now);
    CommitKeepsOrder(ps, drawer, c.id, now);
    var k := FindParticipant(ps, drawer).value;
    CommitRows(ps, drawer, c.id, now);
    IndexWhereAgrees(qs, ps, HasParticipantId(drawer), HasParticipantId(drawer));
    var j :| 0 <= j < |ps| && ps[j] == c;
    FindUnique(ps, j);
    IndexWhereAgrees(qs, ps, HasParticipantId(c.id), HasParticipantId(c.id));
  }

  /** Drawing again after a successful draw returns the same recipient,
      marked as already picked, and changes nothing. */
  lemma RedrawIsIdempotent(ps: seq<Participant>, rules: seq<ExclusionRule>, drawer: Id, random: real, random2: real, now: Time, later: Time)
    requires 0.0 <= random < 1.0 && 0.0 <= random2 < 1.0
    requires SortedById(ps)
    requires Draw(ps, rules, drawer, random, now).0.Drawn?
    ensures var (r, qs) := Draw(ps, rules, drawer, random, now);
      Draw(qs, rules, drawer, random2, later) == (AlreadyPicked(r.assignedToId, r.assignedTo), qs)
  {
    DrawnTable(ps, rules, drawer, random, now);
  }

  // ---------------------------------------------------------------------
  // getAssignment

  /** What `getAssignment` reports. */
  datatype AssignmentView =
    | AssignmentNotFound
    | NotPickedYet
    | Assignment(assignedToId: Id, assignedTo: Option<string>, pickedAt: Option<Time>)

  /** `getAssignment`: the caller's row joined with the recipient's name.
      Not found when no row has the id; otherwise the row found decides: an
      assignment exactly when it has picked and names a recipient, carrying
      that recipient's id, the first name the LEFT JOIN finds for it (none
      when that row is gone) and the row's `picked_at`. */
  function GetAssignment(ps: seq<Participant>, id: Id): (r: AssignmentView)
    ensures r == AssignmentNotFound <==> forall p :: p in ps ==> p.id != id
    ensures r.Assignment? ==> exists p :: p in ps && p.id == id && p.hasPicked && p.assignedTo == Some(r.assignedToId)
    ensures FindParticipant(ps, id).Some? ==>
      var p := ps[FindParticipant(ps, id).value];
      && (r.Assignment? <==> p.hasPicked && p.assignedTo.Some?)
      && (r == NotPickedYet <==> !(p.hasPicked && p.assignedTo.Some?))
      && (r.Assignment? ==> r.assignedToId == p.assignedTo.value && r.pickedAt == p.pickedAt)
    ensures r.Assignment? ==> r.assignedTo == NameOf(ps, r.assignedToId)
  {
    match FindParticipant(ps, id)
    case None => AssignmentNotFound
    case Some(k) =>
      var p := ps[k];
      if !p.hasPicked || p.assignedTo.None? then NotPickedYet
      else Assignment(p.assignedTo.value, NameOf(ps, p.assignedTo.value), p.pickedAt)
  }

  /** In a table with one row per id, `getAssignment` describes the caller's
      row: an assignment exactly when that row has picked and names a
      recipient, with the recipient's first name when the recipient's row
      exists, and "not picked yet" otherwise. */
  lemma GetAssignmentMeaning(ps: seq<Participant>, id: Id)
    requires SortedById(ps)
    ensures forall p :: p in ps && p.id == id ==>
      && (GetAssignment(ps, id).Assignment? <==> p.hasPicked && p.assignedTo.Some?)
      && (GetAssignment(ps, id) == NotPickedYet <==> !(p.hasPicked && p.assignedTo.Some?))
      && (GetAssignment(ps, id).Assignment? ==>
            GetAssignment(ps, id) == Assignment(p.assignedTo.value, NameOf(ps, p.assignedTo.value), p.pickedAt))
    ensures var r := GetAssignment(ps, id);
      r.Assignment? && r.assignedTo.Some? ==>
        exists q :: q in ps && q.id == r.assignedToId && q.firstName == r.assignedTo.value
  {
    forall p | p in ps && p.id == id
      ensures FindParticipant(ps, id).Some? && ps[FindParticipant(ps, id).value] == p
    {
      var j :| 0 <= j < |ps| && ps[j] == p;
      FindUnique(ps, j);
    }
  }

  /** After a successful draw, `getAssignment` shows the recipient's id and
      name and the time of the draw. */
  lemma GetAssignmentAfterDraw(ps: seq<Participant>, rules: seq<ExclusionRule>, drawer: Id, random: real, now: Time)
    requires 0.0 <= random < 1.0
    requires SortedById(ps)
    requires Draw(ps, rules, drawer, random, now).0.Drawn?
    ensures var (r, qs) := Draw(ps, rules, drawer, random, now);
      GetAssignment(qs, drawer) == Assignment(r.assignedToId, Some(r.assignedTo), Some(now))
  {
    DrawnTable(ps, rules, drawer, random, now);
  }

  // ---------------------------------------------------------------------
  // resetAllAssignments

  /** The reset UPDATE applied to every row. */
  function ResetAll(ps: seq<Participant>): seq<Participant>
  {
    seq(|ps|, i requires 0 <= i < |ps| => ps[i].(assignedTo := None, hasPicked := false, pickedAt := None))
  }

  /** After a reset nobody has picked, every other column is kept, the table
      is consistent whatever the rules, and everybody's candidates are once
      again their static candidates. */
  lemma ResetOutcome(ps: seq<Participant>, rules: seq<ExclusionRule>)
    ensures |ResetAll(ps)| == |ps|
    ensures forall i :: 0 <= i < |ps| ==>
      (&& ResetAll(ps)[i].id == ps[i].id
       && ResetAll(ps)[i].firstName == ps[i].firstName && ResetAll(ps)[i].phoneNumber == ps[i].phoneNumber
       && ResetAll(ps)[i].prefs == ps[i].prefs
       && !ResetAll(ps)[i].hasPicked && ResetAll(ps)[i].assignedTo.None? && ResetAll(ps)[i].pickedAt.None?)
    ensures SortedById(ps) ==> SortedById(ResetAll(ps))
    ensures Consistent(ResetAll(ps), rules)
    ensures forall d: Id ::
      AvailableRecipients(ResetAll(ps), rules, d) == Filter(ResetAll(ps), (c: Participant) => c.id != d && !Excludes(rules, d, c.id))
  {
    var qs := ResetAll(ps);
    assert forall x: Id :: !IsAssigned(qs, x);
    forall d: Id ensures AvailableRecipients(qs, rules, d)
      == Filter(qs, (c: Participant) => c.id != d && !Excludes(rules, d, c.id))
    {
      FilterSame(qs, IsCandidate(qs, rules, d), (c: Participant) => c.id != d && !Excludes(rules, d, c.id));
    }
  }

  lemma {:induction false} FilterSame(s: seq<Participant>, f: Participant -> bool, g: Participant -> bool)
    requires forall x :: x in s ==> f(x) == g(x)
    ensures Filter(s, f) == Filter(s, g)
    decreases |s|
  {
    if s != [] {
      assert forall x :: x in s[1..] ==> x in s;
      FilterSame(s[1..], f, g);
    }
  }

  /** `resetAllAssignments`: one UPDATE over the whole table; the count is
      the number of rows it matched. */
  method ResetAllAssignments(db: Database) returns (reset: nat)
    modifies db`participants
    ensures db.participants == ResetAll(old(db.participants))
    ensures reset == |old(db.participants)|
  {
    reset := |db.participants|;
    db.participants := ResetAll(db.participants);
  }

  // ---------------------------------------------------------------------
  // getGameStatus

  /** A row of the "has picked" list: the LEFT JOIN gives the recipient's
      name when there is one. */
  datatype PickedRow = PickedRow(id: Id, firstName: string, pickedAt: Option<Time>, assignedToName: Option<string>)

  datatype GameStatus = GameStatus(
    totalParticipants: nat,
    pickedCount: nat,
    notPickedCount: nat,
    percentComplete: nat,
    notPicked: seq<Participant>,
    picked: seq<PickedRow>)

  function HasPicked(p: Participant): bool { p.hasPicked }

  function ToPickedRow(ps: seq<Participant>, p: Participant): PickedRow
  {
    PickedRow(p.id, p.firstName, p.pickedAt, if p.assignedTo.Some? then NameOf(ps, p.assignedTo.value) else None)
  }

  /** `getGameStatus`. Counting over an empty table yields NULL sums, which
      `|| 0` turns into 0. */
  function GetGameStatus(ps: seq<Participant>): GameStatus
  {
    var picked := Filter(ps, HasPicked);
    var notPicked := Filter(ps, Not(HasPicked));
    GameStatus(
      |ps|, |picked|, |notPicked|,
      if |ps| > 0 then RoundedPercent(|picked|, |ps|) else 0,
      notPicked,
      seq(|picked|, i requires 0 <= i < |picked| => ToPickedRow(ps, picked[i])))
  }

  /** The counts add up and the two lists hold exactly the rows they count,
      with each picked row carrying its recipient's name. */
  lemma GameStatusCounts(ps: seq<Participant>)
    ensures var s := GetGameStatus(ps);
      && s.pickedCount + s.notPickedCount == s.totalParticipants == |ps|
      && |s.notPicked| == s.notPickedCount && |s.picked| == s.pickedCount
      && (forall p :: p in s.notPicked <==> p in ps && !p.hasPicked)
      && (forall r :: r in s.picked <==>
            exists p :: p in ps && p.hasPicked && r == ToPickedRow(ps, p))
  {
    FilterPartition(ps, HasPicked);
    PickedRowsExactly(ps);
  }

  lemma PickedRowsExactly(ps: seq<Participant>)
    ensures var s := GetGameStatus(ps);
      forall r :: r in s.picked <==> exists p :: p in ps && p.hasPicked && r == ToPickedRow(ps, p)
  {
    var s := GetGameStatus(ps);
    var picked := Filter(ps, HasPicked);
    forall r ensures r in s.picked <==> exists p :: p in ps && p.hasPicked && r == ToPickedRow(ps, p) {
      if r in s.picked {
        var i :| 0 <= i < |s.picked| && s.picked[i] == r;
        assert picked[i] in picked;
      }
      if exists p :: p in ps && p.hasPicked && r == ToPickedRow(ps, p) {
        var p :| p in ps && p.hasPicked && r == ToPickedRow(ps, p);
        assert p in picked;
        var i :| 0 <= i < |picked| && picked[i] == p;
        assert s.picked[i] == r;
      }
    }
  }

  /** The percentage is `Math.round(100 * picked / total)`, 0 for an empty
      table, at most 100, 0 when nobody and 100 when everybody has picked. */
  lemma GameStatusPercent(ps: seq<Participant>)
    ensures var s := GetGameStatus(ps);
      && (|ps| == 0 ==> s.percentComplete == 0)
      && (|ps| > 0 ==> 2 * |ps| * s.percentComplete <= 200 * s.pickedCount + |ps| < 2 * |ps| * (s.percentComplete + 1))
      && s.percentComplete <= 100
      && (s.pickedCount == 0 ==> s.percentComplete == 0)
      && (|ps| > 0 && s.pickedCount == |ps| ==> s.percentComplete == 100)
  {
    if |ps| > 0 {
      RoundedPercentBounds(|Filter(ps, HasPicked)|, |ps|);
    }
  }

  // ---------------------------------------------------------------------
  // canParticipantPick

  datatype CanPickResult =
    | CannotPickNotFound
    | CannotPickAlreadyDrawn
    | CannotPickNoneAvailable
    | CanDraw(availableCount: nat)

  /** `canParticipantPick` */
  function CanParticipantPick(ps: seq<Participant>, rules: seq<ExclusionRule>, id: Id): CanPickResult
  {
    match FindParticipant(ps, id)
    case None => CannotPickNotFound
    case Some(k) =>
      if ps[k].hasPicked && ps[k].assignedTo.Some? then CannotPickAlreadyDrawn
      else
        var n := |AvailableRecipients(ps, rules, id)|;
        if n == 0 then CannotPickNoneAvailable else CanDraw(n)
  }

  /** The can-pick check answers ahead of the draw: each refusal is the
      matching failure of `drawAssignment`, and "can draw" means the draw
      gets past its candidate check (it may still find no safe candidate). */
  lemma CanPickAgreesWithDraw(ps: seq<Participant>, rules: seq<ExclusionRule>, id: Id, random: real, now: Time)
    requires 0.0 <= random < 1.0
    ensures var c, d := CanParticipantPick(ps, rules, id), Draw(ps, rules, id, random, now).0;
      && (c == CannotPickNotFound <==> d == NotFound)
      && (c == CannotPickAlreadyDrawn <==> d.AlreadyPicked?)
      && (c == CannotPickNoneAvailable <==> d == NoCandidates)
      && (c.CanDraw? <==> d == NoSafeCandidates || d.Drawn?)
      && (c.CanDraw? ==> c.availableCount == |AvailableRecipients(ps, rules, id)|)
  {
  }

  /** With two participants and one rule against the only possible pick, the
      drawer has no candidates. */
  lemma TwoPeopleOneRule()
    ensures var prefs := Preferences(true, true, true, true, true);
      var a := Participant(1, "A", "", None, false, None, prefs);
      var b := Participant(2, "B", "", None, false, None, prefs);
      Draw([a, b], [ExclusionRule(1, 1, 2, None)], 1, 0.5, 0).0 == NoCandidates
  {
    var prefs := Preferences(true, true, true, true, true);
    var a := Participant(1, "A", "", None, false, None, prefs);
    var b := Participant(2, "B", "", None, false, None, prefs);
    var rules := [ExclusionRule(1, 1, 2, None)];
    assert Excludes(rules, 1, 2) by { assert rules[0] in rules; }
    assert FindParticipant([a, b], 1) == Some(0);
    var f := IsCandidate([a, b], rules, 1);
    assert !f(a) && !f(b);
    assert Filter([b], f) == [] by { assert [b][1..] == []; }
    assert [a, b][1..] == [b];
    assert AvailableRecipients([a, b], rules, 1) == [];
  }
}
