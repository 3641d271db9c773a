/** The event submission handler (app/api/events.js, `submit`): consolidate a
    submission into the caller's most recently updated event, or start a new
    one.

    An event store is a sequence of events in ascending `updatedAt` order, so
    the caller's latest event is the last one the caller owns. Saving a record
    upserts it by id and refreshes its `updatedAt`, which moves it to the end. */
module Events {
  import opened Requests
  import opened Models
  import Categories

  const MsgNoCategory := "You must include an event category."
  const MsgInvalidCategory := "Invalid category."
  const MsgCreationError := "Event creation error"
  const MsgRecorded := "Event recorded"

  /** The database step that fails when the handler reaches it, if any. */
  datatype SubmitFault = NoFault | CategoryLookupFails | EventLookupFails | SaveFails

  /** What a submission leaves behind: the first response sent and the store. */
  datatype Outcome = Outcome(response: Response<string>, events: seq<Event>)

  // ----- The store and its queries -----

  /** The caller's events, in update order: the events the query at
      events.js:39 sorts through. */
  function Owned(s: seq<Event>, user: Id): (r: seq<Event>)
    ensures |r| <= |s|
  {
    if s == [] then []
    else if s[|s| - 1].user == user then Owned(s[..|s| - 1], user) + [s[|s| - 1]]
    else Owned(s[..|s| - 1], user)
  }

  /** The sum of the counts of some events. */
  function TotalCount(s: seq<Event>): (r: nat)
  {
    if s == [] then 0 else TotalCount(s[..|s| - 1]) + s[|s| - 1].count
  }

  /** `Event.findOne({user}).sort({updatedAt: -1})`: the caller's most recently
      updated event, which is the last of the caller's events. */
  function LatestEvent(s: seq<Event>, user: Id): (r: Option<Event>)
    ensures r.None? <==> Owned(s, user) == []
    ensures r.Some? ==> r.value in s && r.value.user == user
  {
    if s == [] then None
    else if s[|s| - 1].user == user then Some(s[|s| - 1])
    else LatestEvent(s[..|s| - 1], user)
  }

  /** The store without the record whose id is `id`. */
  function Without(s: seq<Event>, id: Id): (r: seq<Event>)
    ensures |r| <= |s|
  {
    if s == [] then []
    else
      assert s == s[..|s| - 1] + [s[|s| - 1]];
      if s[|s| - 1].id == id then Without(s[..|s| - 1], id)
      else Without(s[..|s| - 1], id) + [s[|s| - 1]]
  }

  /** `event.save()`: upsert by id; the saved record becomes the most recently
      updated one. */
  function Save(s: seq<Event>, e: Event): (r: seq<Event>)
    ensures |r| >= 1 && r[|r| - 1] == e
    ensures |r| <= |s| + 1
  {
    Without(s, e.id) + [e]
  }

  /** No two events share an id. */
  ghost predicate DistinctIds(s: seq<Event>)
  {
    forall i, j :: 0 <= i < j < |s| ==> s[i].id != s[j].id
  }

  /** The store invariant: ids are distinct and below the next fresh id, and
      every event stands for at least one submission. */
  ghost predicate Wellformed(s: seq<Event>, freshId: Id)
  {
    && DistinctIds(s)
    && (forall i :: 0 <= i < |s| ==> s[i].id < freshId && s[i].count >= 1)
  }

  /** The caller's events are exactly the store's events the caller owns. */
  lemma {:induction false} OwnedMember(s: seq<Event>, user: Id, e: Event)
    ensures e in Owned(s, user) <==> e in s && e.user == user
  {
    if s != [] {
      var p := s[..|s| - 1];
      assert s == p + [s[|s| - 1]];
      OwnedMember(p, user, e);
    }
  }

  /** The latest event is the last of the caller's events. */
  lemma {:induction false} LatestIsLastOwned(s: seq<Event>, user: Id)
    requires LatestEvent(s, user).Some?
    ensures LatestEvent(s, user).value == Owned(s, user)[|Owned(s, user)| - 1]
  {
    if s[|s| - 1].user != user {
      LatestIsLastOwned(s[..|s| - 1], user);
    }
  }

  /** Removing a record by id keeps exactly the records with another id. */
  lemma {:induction false} WithoutMember(s: seq<Event>, id: Id, e: Event)
    ensures e in Without(s, id) <==> e in s && e.id != id
  {
    if s != [] {
      var p := s[..|s| - 1];
      assert s == p + [s[|s| - 1]];
      WithoutMember(p, id, e);
    }
  }

  // ----- The decision -----

  /** The test at events.js:43, negated: the latest event exists and has the
      submitted category, so the submission is consolidated into it. */
  predicate SameCategory(latest: Option<Event>, category: Id)
  {
    latest.Some? && latest.value.category == category
  }

  /** The record the second step builds (events.js:43-53): the latest event
      with its count raised, or a new event of count 1. */
  function NextRecord(latest: Option<Event>, freshId: Id, user: Id, category: Id): (e: Event)
    ensures e.category == category
    ensures SameCategory(latest, category) ==> e == latest.value.(count := latest.value.count + 1)
    ensures !SameCategory(latest, category) ==> e.id == freshId && e.user == user && e.count == 1
  {
    if SameCategory(latest, category) then latest.value.(count := latest.value.count + 1)
    else Event(freshId, user, category, 1)
  }

  /** A successful submission of a valid category: save the record the
      decision builds. */
  function Consolidate(s: seq<Event>, freshId: Id, user: Id, category: Id): (r: seq<Event>)
    ensures |r| >= 1
    ensures r[|r| - 1].user == user && r[|r| - 1].category == category
    ensures r[|r| - 1].count >= 1
  {
    Save(s, NextRecord(LatestEvent(s, user), freshId, user, category))
  }

  /** The whole handler as written (events.js:17-65), first response only.
      When the category lookup finds nothing, the handler sends
      'Invalid category.' but its promise chain goes on with no event, so it
      still builds and saves a new event of count 1. */
  function SubmitEffect(s: seq<Event>, freshId: Id, user: Id, category: Option<Id>,
                        categories: seq<Category>, fault: SubmitFault): (o: Outcome)
    ensures o.response.Ok? <==> (category.Some? && fault.NoFault?
                                 && Categories.FindCategory(categories, category.value, user).Some?)
    ensures o.response.Ok? ==> o.events == Consolidate(s, freshId, user, category.value)
    ensures category.None? || fault == CategoryLookupFails || fault == SaveFails ==> o.events == s
    ensures !o.response.Ok? && o.events != s ==> o.response == Err(422, MsgInvalidCategory)
    ensures o.response.Ok? ==> o.response == Ok(200, MsgRecorded)
    ensures category.None? ==> o.response == Err(422, MsgNoCategory)
    ensures category.Some? && fault == CategoryLookupFails ==> o.response == Err(422, MsgCreationError)
    ensures category.Some? && fault != CategoryLookupFails
            && Categories.FindCategory(categories, category.value, user).None?
            ==> o.response == Err(422, MsgInvalidCategory)
    ensures category.Some? && Categories.FindCategory(categories, category.value, user).Some?
            && (fault == EventLookupFails || fault == SaveFails)
            ==> o.response == Err(422, MsgCreationError) && o.events == s
  {
    if category.None? then Outcome(Err(422, MsgNoCategory), s)
    else if fault == CategoryLookupFails then Outcome(Err(422, MsgCreationError), s)
    else
      var c := category.value;
      var valid := Categories.FindCategory(categories, c, user).Some?;
      if valid && fault == EventLookupFails then Outcome(Err(422, MsgCreationError), s)
      else
        var latest := if valid then LatestEvent(s, user) else None;
        var first := if valid then Ok(200, MsgRecorded) else Err(422, MsgInvalidCategory);
        if fault == SaveFails then Outcome(if valid then Err(422, MsgCreationError) else first, s)
        else Outcome(first, Save(s, NextRecord(latest, freshId, user, c)))
  }

  /** The handler as evidently intended: an invalid category is rejected and
      nothing is written. */
  function IntendedSubmitEffect(s: seq<Event>, freshId: Id, user: Id, category: Option<Id>,
                                categories: seq<Category>, fault: SubmitFault): (o: Outcome)
    ensures !o.response.Ok? ==> o.events == s
    ensures o.response.Ok? ==> o == SubmitEffect(s, freshId, user, category, categories, fault)
  {
    if category.Some? && fault != CategoryLookupFails
       && Categories.FindCategory(categories, category.value, user).None?
    then Outcome(Err(422, MsgInvalidCategory), s)
    else SubmitEffect(s, freshId, user, category, categories, fault)
  }

  // ----- The store as an object -----

  class EventStore {
    var events: seq<Event>
    var nextId: Id

    ghost predicate Valid()
      reads this
    {
      Wellformed(events, nextId)
    }

    constructor ()
      ensures Valid() && events == [] && nextId == 0
    {
      events := [];
      nextId := 0;
    }

    /** `submit` for the caller `user`; `categories` is the category store. */
    method Submit(user: Id, category: Option<Id>, categories: seq<Category>, fault: SubmitFault)
      returns (r: Response<string>)
      requires Valid()
      modifies this
      ensures Valid()
      ensures Outcome(r, events) == SubmitEffect(old(events), old(nextId), user, category, categories, fault)
      ensures nextId == old(nextId) + |events| - |old(events)|
    {
      if category.None? {
        return Err(422, MsgNoCategory);
      }
      var c := category.value;
      if fault == CategoryLookupFails {
        return Err(422, MsgCreationError);
      }
      // First step: look the category up, then the caller's latest event.
      var latest: Option<Event> := None;
      var valid := Categories.FindCategory(categories, c, user).Some?;
      if !valid {
        r := Err(422, MsgInvalidCategory);
      } else {
        if fault == EventLookupFails {
          return Err(422, MsgCreationError);
        }
        latest := LatestEvent(events, user);
        r := Ok(200, MsgRecorded);
      }
      // Second step: consolidate or create, then save.
      var event: Event;
      var created := !SameCategory(latest, c);
      if created {
        event := Event(nextId, user, c, 1);
      } else {
        event := latest.value;
        event := event.(count := event.count + 1);
      }
      if fault == SaveFails {
        if valid {
          r := Err(422, MsgCreationError);
        }
        return;
      }
      SaveStep(events, nextId, user, c, latest);
      events := Save(events, event);
      if created {
        nextId := nextId + 1;
      }
    }
  }

  // ----- Lemmas about the store -----

  lemma {:induction false} OwnedSnoc(s: seq<Event>, e: Event, user: Id)
    ensures Owned(s + [e], user) == if e.user == user then Owned(s, user) + [e] else Owned(s, user)
  {
    assert (s + [e])[..|s|] == s;
  }

  lemma {:induction false} TotalCountSnoc(s: seq<Event>, e: Event)
    ensures TotalCount(s + [e]) == TotalCount(s) + e.count
  {
    assert (s + [e])[..|s|] == s;
  }

  lemma {:induction false} WithoutAbsent(s: seq<Event>, id: Id)
    requires forall i :: 0 <= i < |s| ==> s[i].id != id
    ensures Without(s, id) == s
  {
    if s != [] {
      WithoutAbsent(s[..|s| - 1], id);
      assert s == s[..|s| - 1] + [s[|s| - 1]];
    }
  }

  lemma {:induction false} WithoutKeepsDistinct(s: seq<Event>, id: Id)
    requires DistinctIds(s)
    ensures DistinctIds(Without(s, id))
  {
    if s != [] {
      var p := s[..|s| - 1];
      var x := s[|s| - 1];
      WithoutKeepsDistinct(p, id);
      if x.id != id {
        var w := Without(p, id);
        forall i | 0 <= i < |w| ensures w[i].id != x.id {
          WithoutMember(p, id, w[i]);
          var k :| 0 <= k < |p| && p[k] == w[i];
        }
      }
    }
  }

  /** Removing a record that belongs to someone else leaves a user's events
      as they were. */
  lemma {:induction false} OwnedWithoutOther(s: seq<Event>, id: Id, user: Id)
    requires forall i :: 0 <= i < |s| && s[i].id == id ==> s[i].user != user
    ensures Owned(Without(s, id), user) == Owned(s, user)
  {
    if s != [] {
      var p := s[..|s| - 1];
      var x := s[|s| - 1];
      assert forall i :: 0 <= i < |p| ==> p[i] == s[i];
      OwnedWithoutOther(p, id, user);
      if x.id != id {
        OwnedSnoc(Without(p, id), x, user);
      }
    }
  }

  /** Removing the caller's latest event drops the last of the caller's events
      and nothing else of theirs. */
  lemma {:induction false} OwnedWithoutLatest(s: seq<Event>, user: Id, e: Event)
    requires DistinctIds(s)
    requires LatestEvent(s, user) == Some(e)
    ensures Owned(Without(s, e.id), user) == Owned(s, user)[..|Owned(s, user)| - 1]
  {
    var p := s[..|s| - 1];
    var x := s[|s| - 1];
    if x.user == user {
      WithoutAbsent(p, e.id);
    } else {
      var k :| 0 <= k < |p| && p[k] == e;
      OwnedWithoutLatest(p, user, e);
      OwnedSnoc(Without(p, e.id), x, user);
    }
  }

  /** Saving a record keeps the store well formed: either a fresh record of
      count 1, or an existing record with its count raised. */
  lemma SaveKeepsWellformed(s: seq<Event>, freshId: Id, e: Event, created: bool)
    requires Wellformed(s, freshId)
    requires created ==> e.id == freshId && e.count == 1
    requires !created ==> e.id < freshId && e.count >= 1
    ensures Wellformed(Save(s, e), if created then freshId + 1 else freshId)
  {
    WithoutKeepsDistinct(s, e.id);
    var w := Without(s, e.id);
    forall i | 0 <= i < |w| ensures w[i].id != e.id && w[i].id < freshId && w[i].count >= 1 {
      WithoutMember(s, e.id, w[i]);
      var k :| 0 <= k < |s| && s[k] == w[i];
    }
  }

  // ----- Properties of a submission -----

  /** Consolidation as the caller sees it, when the latest event has the
      submitted category: the last of the caller's events has its count
      raised by exactly one and keeps its id and category. */
  lemma {:induction false} ConsolidateRaisesLatest(s: seq<Event>, freshId: Id, user: Id, category: Id)
    requires DistinctIds(s)
    requires SameCategory(LatestEvent(s, user), category)
    ensures var o := Owned(s, user);
            Owned(Consolidate(s, freshId, user, category), user)
            == o[..|o| - 1] + [o[|o| - 1].(count := o[|o| - 1].count + 1)]
  {
    var o := Owned(s, user);
    var last := o[|o| - 1];
    var e := NextRecord(LatestEvent(s, user), freshId, user, category);
    LatestIsLastOwned(s, user);
    assert e == last.(count := last.count + 1);
    OwnedWithoutLatest(s, user, last);
    OwnedSnoc(Without(s, e.id), e, user);
  }

  /** Consolidation as the caller sees it, when there is no latest event or
      it has another category: one new event of count 1 follows the caller's
      events. */
  lemma {:induction false} ConsolidateAppendsNew(s: seq<Event>, freshId: Id, user: Id, category: Id)
    requires Wellformed(s, freshId)
    requires !SameCategory(LatestEvent(s, user), category)
    ensures Owned(Consolidate(s, freshId, user, category), user)
            == Owned(s, user) + [Event(freshId, user, category, 1)]
  {
    var e := NextRecord(LatestEvent(s, user), freshId, user, category);
    assert e == Event(freshId, user, category, 1);
    WithoutAbsent(s, freshId);
    OwnedSnoc(s, e, user);
  }

  /** Both cases together. */
  lemma ConsolidateOwned(s: seq<Event>, freshId: Id, user: Id, category: Id)
    requires Wellformed(s, freshId)
    ensures var o := Owned(s, user);
            var o' := Owned(Consolidate(s, freshId, user, category), user);
            if SameCategory(LatestEvent(s, user), category)
            then o' == o[..|o| - 1] + [o[|o| - 1].(count := o[|o| - 1].count + 1)]
            else o' == o + [Event(freshId, user, category, 1)]
  {
    if SameCategory(LatestEvent(s, user), category) {
      ConsolidateRaisesLatest(s, freshId, user, category);
    } else {
      ConsolidateAppendsNew(s, freshId, user, category);
    }
  }

  /** The fresh id after a successful submission: the counter advances
      exactly when the submission adds an event to the store. */
  function NextFreshId(s: seq<Event>, freshId: Id, user: Id, category: Id): (r: Id)
  {
    if SameCategory(LatestEvent(s, user), category) then freshId else freshId + 1
  }

  /** `NextFreshId` advances the counter by the number of events a
      successful submission adds, as `EventStore.Submit` does. */
  lemma NextFreshIdCountsCreations(s: seq<Event>, freshId: Id, user: Id, category: Id)
    requires Wellformed(s, freshId)
    ensures NextFreshId(s, freshId, user, category) == freshId + |Consolidate(s, freshId, user, category)| - |s|
  {
    if SameCategory(LatestEvent(s, user), category) {
      ConsolidateIncrementsInPlace(s, freshId, user, category);
    } else {
      ConsolidateCreates(s, freshId, user, category);
    }
  }

  /** A successful submission keeps the store well formed, ids staying below
      the advanced counter. */
  lemma ConsolidateKeepsWellformed(s: seq<Event>, freshId: Id, user: Id, category: Id)
    requires Wellformed(s, freshId)
    ensures Wellformed(Consolidate(s, freshId, user, category), NextFreshId(s, freshId, user, category))
  {
    var latest := LatestEvent(s, user);
    var created := !SameCategory(latest, category);
    if !created {
      var k :| 0 <= k < |s| && s[k] == latest.value;
    }
    SaveKeepsWellformed(s, freshId, NextRecord(latest, freshId, user, category), created);
  }

  /** Saving the record the decision builds, from no event or from the
      caller's latest one: the store stays well formed under the advanced
      counter, and grows by one record exactly when a record is created. */
  lemma SaveStep(s: seq<Event>, freshId: Id, user: Id, c: Id, latest: Option<Event>)
    requires Wellformed(s, freshId)
    requires latest.None? || latest == LatestEvent(s, user)
    ensures var created := !SameCategory(latest, c);
            var s' := Save(s, NextRecord(latest, freshId, user, c));
            && Wellformed(s', if created then freshId + 1 else freshId)
            && |s'| == |s| + (if created then 1 else 0)
  {
    var created := !SameCategory(latest, c);
    if created {
      WithoutAbsent(s, freshId);
    } else {
      var k :| 0 <= k < |s| && s[k] == latest.value;
      WithoutDropsOne(s, latest.value);
    }
    SaveKeepsWellformed(s, freshId, NextRecord(latest, freshId, user, c), created);
  }

  /** A creation appends exactly one record and leaves every existing record
      where it was. */
  lemma {:induction false} ConsolidateCreates(s: seq<Event>, freshId: Id, user: Id, category: Id)
    requires Wellformed(s, freshId)
    requires !SameCategory(LatestEvent(s, user), category)
    ensures Consolidate(s, freshId, user, category) == s + [Event(freshId, user, category, 1)]
  {
    WithoutAbsent(s, freshId);
  }

  /** A consolidation adds no record: the store keeps its size. */
  lemma {:induction false} ConsolidateIncrementsInPlace(s: seq<Event>, freshId: Id, user: Id, category: Id)
    requires Wellformed(s, freshId)
    requires SameCategory(LatestEvent(s, user), category)
    ensures |Consolidate(s, freshId, user, category)| == |s|
  {
    var e := LatestEvent(s, user).value;
    WithoutDropsOne(s, e);
  }

  lemma {:induction false} WithoutDropsOne(s: seq<Event>, e: Event)
    requires DistinctIds(s)
    requires e in s
    ensures |Without(s, e.id)| == |s| - 1
  {
    var p := s[..|s| - 1];
    var x := s[|s| - 1];
    if x == e {
      WithoutAbsent(p, e.id);
    } else {
      assert e in p;
      var k :| 0 <= k < |p| && p[k] == e;
      WithoutDropsOne(p, e);
    }
  }

  /** Other users' events are neither moved nor changed by a submission,
      whatever its outcome. */
  lemma {:induction false} SubmitLeavesOthersAlone(s: seq<Event>, freshId: Id, user: Id, category: Option<Id>,
                                                   categories: seq<Category>, fault: SubmitFault, other: Id)
    requires Wellformed(s, freshId)
    requires other != user
    ensures Owned(SubmitEffect(s, freshId, user, category, categories, fault).events, other) == Owned(s, other)
  {
    if category.Some? && fault != CategoryLookupFails {
      var valid := Categories.FindCategory(categories, category.value, user).Some?;
      var latest := if valid then LatestEvent(s, user) else None;
      var e := NextRecord(latest, freshId, user, category.value);
      forall i | 0 <= i < |s| && s[i].id == e.id ensures s[i].user != other {
        if SameCategory(latest, category.value) {
          var k :| 0 <= k < |s| && s[k] == latest.value;
        }
      }
      OwnedWithoutOther(s, e.id, other);
      OwnedSnoc(Without(s, e.id), e, other);
    }
  }

  /** What a submission decides depends on the caller's own events only:
      two stores that agree on them give the caller the same response and the
      same events afterwards. */
  lemma {:induction false} SubmitReadsOnlyCallersEvents(s1: seq<Event>, s2: seq<Event>, freshId: Id, user: Id,
                                                        category: Option<Id>, categories: seq<Category>,
                                                        fault: SubmitFault)
    requires Wellformed(s1, freshId) && Wellformed(s2, freshId)
    requires Owned(s1, user) == Owned(s2, user)
    ensures var o1 := SubmitEffect(s1, freshId, user, category, categories, fault);
            var o2 := SubmitEffect(s2, freshId, user, category, categories, fault);
            o1.response == o2.response && Owned(o1.events, user) == Owned(o2.events, user)
  {
    if category.Some? && fault != CategoryLookupFails && fault != SaveFails {
      var c := category.value;
      if Categories.FindCategory(categories, c, user).Some? {
        if fault != EventLookupFails {
          ConsolidateReadsOnlyCallersEvents(s1, s2, freshId, user, c);
        }
      } else {
        FreshSaveReadsOnlyCallersEvents(s1, s2, freshId, user, c);
      }
    }
  }

  /** Stores that agree on the caller's events agree on the latest one. */
  lemma LatestReadsOnlyCallersEvents(s1: seq<Event>, s2: seq<Event>, user: Id)
    requires Owned(s1, user) == Owned(s2, user)
    ensures LatestEvent(s1, user) == LatestEvent(s2, user)
  {
    if LatestEvent(s1, user).Some? {
      LatestIsLastOwned(s1, user);
      LatestIsLastOwned(s2, user);
    }
  }

  /** Consolidation into stores that agree on the caller's events leaves
      them agreeing. */
  lemma ConsolidateReadsOnlyCallersEvents(s1: seq<Event>, s2: seq<Event>, freshId: Id, user: Id, c: Id)
    requires Wellformed(s1, freshId) && Wellformed(s2, freshId)
    requires Owned(s1, user) == Owned(s2, user)
    ensures Owned(Consolidate(s1, freshId, user, c), user) == Owned(Consolidate(s2, freshId, user, c), user)
  {
    LatestReadsOnlyCallersEvents(s1, s2, user);
    ConsolidateOwned(s1, freshId, user, c);
    ConsolidateOwned(s2, freshId, user, c);
  }

  /** Saving a fresh event of count 1, as the handler does after an invalid
      category, into stores that agree on the caller's events leaves them
      agreeing. */
  lemma FreshSaveReadsOnlyCallersEvents(s1: seq<Event>, s2: seq<Event>, freshId: Id, user: Id, c: Id)
    requires Wellformed(s1, freshId) && Wellformed(s2, freshId)
    requires Owned(s1, user) == Owned(s2, user)
    ensures Owned(Save(s1, Event(freshId, user, c, 1)), user) == Owned(Save(s2, Event(freshId, user, c, 1)), user)
  {
    var e := Event(freshId, user, c, 1);
    WithoutAbsent(s1, freshId);
    WithoutAbsent(s2, freshId);
    OwnedSnoc(s1, e, user);
    OwnedSnoc(s2, e, user);
  }

  /** After a successful submission of `c`, the caller's latest event has
      category `c` and the caller's counts add up to one more than before. */
  lemma {:induction false} SubmitRecordsOneOccurrence(s: seq<Event>, freshId: Id, user: Id, c: Id,
                                                      categories: seq<Category>)
    requires Wellformed(s, freshId)
    requires SubmitEffect(s, freshId, user, Some(c), categories, NoFault).response.Ok?
    ensures var s' := SubmitEffect(s, freshId, user, Some(c), categories, NoFault).events;
            && LatestEvent(s', user).Some?
            && LatestEvent(s', user).value.category == c
            && TotalCount(Owned(s', user)) == TotalCount(Owned(s, user)) + 1
  {
    var o := Owned(s, user);
    var s' := Consolidate(s, freshId, user, c);
    ConsolidateOwned(s, freshId, user, c);
    LatestIsLastOwned(s', user);
    if SameCategory(LatestEvent(s, user), c) {
      LatestIsLastOwned(s, user);
      var last := o[|o| - 1];
      assert o == o[..|o| - 1] + [last];
      TotalCountSnoc(o[..|o| - 1], last);
      TotalCountSnoc(o[..|o| - 1], last.(count := last.count + 1));
    } else {
      TotalCountSnoc(o, Event(freshId, user, c, 1));
    }
  }

  /** Every submission keeps the store well formed; in particular every event
      keeps a count of at least one. */
  lemma SubmitKeepsWellformed(s: seq<Event>, freshId: Id, user: Id, category: Option<Id>,
                              categories: seq<Category>, fault: SubmitFault)
    requires Wellformed(s, freshId)
    ensures var s' := SubmitEffect(s, freshId, user, category, categories, fault).events;
            Wellformed(s', freshId + 1) && forall e :: e in s' ==> e.count >= 1
  {
    var s' := SubmitEffect(s, freshId, user, category, categories, fault).events;
    if category.Some? && fault != CategoryLookupFails {
      var valid := Categories.FindCategory(categories, category.value, user).Some?;
      var latest := if valid then LatestEvent(s, user) else None;
      if SameCategory(latest, category.value) {
        var k :| 0 <= k < |s| && s[k] == latest.value;
      }
      var created := !SameCategory(latest, category.value);
      SaveKeepsWellformed(s, freshId, NextRecord(latest, freshId, user, category.value), created);
    }
    assert Wellformed(s', freshId + 1);
  }

  // ----- Consolidation is run-length counting -----

  /** What the caller sees of their events: category and count, in order. */
  function Summary(s: seq<Event>): (r: seq<(Id, nat)>)
    ensures |r| == |s|
  {
    if s == [] then [] else Summary(s[..|s| - 1]) + [(s[|s| - 1].category, s[|s| - 1].count)]
  }

  /** Run-length counting of one more occurrence of `c`: extend the last run
      when it is of `c`, otherwise start a run of length 1. */
  function Tally(runs: seq<(Id, nat)>, c: Id): (r: seq<(Id, nat)>)
  {
    if runs != [] && runs[|runs| - 1].0 == c then runs[..|runs| - 1] + [(c, runs[|runs| - 1].1 + 1)]
    else runs + [(c, 1)]
  }

  /** Run-length counting of the occurrences `cs`, one after the other,
      after `runs`. */
  function TallyAll(runs: seq<(Id, nat)>, cs: seq<Id>): (r: seq<(Id, nat)>)
    decreases |cs|
  {
    if cs == [] then runs else TallyAll(Tally(runs, cs[0]), cs[1..])
  }

  /** Successful submissions of the categories `cs`, one after the other,
      with the fresh id advancing as the store's counter does: only when a
      submission creates an event. */
  function Replay(s: seq<Event>, f: Id, user: Id, cs: seq<Id>): (r: seq<Event>)
    decreases |cs|
  {
    if cs == [] then s
    else Replay(Consolidate(s, f, user, cs[0]), NextFreshId(s, f, user, cs[0]), user, cs[1..])
  }

  lemma {:induction false} SummarySnoc(s: seq<Event>, e: Event)
    ensures Summary(s + [e]) == Summary(s) + [(e.category, e.count)]
  {
    assert (s + [e])[..|s|] == s;
  }

  /** One successful submission counts one more occurrence of its category
      in the caller's runs. */
  lemma {:induction false} ConsolidateTallies(s: seq<Event>, f: Id, user: Id, c: Id)
    requires Wellformed(s, f)
    ensures Summary(Owned(Consolidate(s, f, user, c), user)) == Tally(Summary(Owned(s, user)), c)
  {
    var o := Owned(s, user);
    var o' := Owned(Consolidate(s, f, user, c), user);
    ConsolidateOwned(s, f, user, c);
    if SameCategory(LatestEvent(s, user), c) {
      LatestIsLastOwned(s, user);
      var p, last := o[..|o| - 1], o[|o| - 1];
      assert o' == p + [last.(count := last.count + 1)];
      assert o == p + [last];
      TallyRaise(p, last);
    } else {
      if LatestEvent(s, user).Some? {
        LatestIsLastOwned(s, user);
      }
      assert o' == o + [Event(f, user, c, 1)];
      TallyAppend(o, Event(f, user, c, 1));
    }
  }

  /** A new event of count 1 after a run of another category starts a new
      run. */
  lemma TallyAppend(o: seq<Event>, e: Event)
    requires e.count == 1
    requires o == [] || o[|o| - 1].category != e.category
    ensures Summary(o + [e]) == Tally(Summary(o), e.category)
  {
    SummarySnoc(o, e);
  }

  /** Raising the count of the last event extends its run by one. */
  lemma TallyRaise(p: seq<Event>, last: Event)
    ensures Summary(p + [last.(count := last.count + 1)]) == Tally(Summary(p + [last]), last.category)
  {
    SummarySnoc(p, last);
    SummarySnoc(p, last.(count := last.count + 1));
    assert Summary(p + [last])[..|p|] == Summary(p);
  }

  /** A store well formed for one counter is well formed for any later one. */
  lemma WellformedRaise(s: seq<Event>, f: Id, g: Id)
    requires Wellformed(s, f) && f <= g
    ensures Wellformed(s, g)
  {
  }

  /** Any run of successful submissions keeps the store well formed, with
      ids below the counter after at most one creation per submission. */
  lemma {:induction false} ReplayKeepsWellformed(s: seq<Event>, f: Id, user: Id, cs: seq<Id>)
    requires Wellformed(s, f)
    ensures Wellformed(Replay(s, f, user, cs), f + |cs|)
    decreases |cs|
  {
    if cs != [] {
      var f1 := NextFreshId(s, f, user, cs[0]);
      ConsolidateKeepsWellformed(s, f, user, cs[0]);
      ReplayKeepsWellformed(Consolidate(s, f, user, cs[0]), f1, user, cs[1..]);
      WellformedRaise(Replay(s, f, user, cs), f1 + |cs| - 1, f + |cs|);
    }
  }

  /** Any run of successful submissions: the caller's events, read as
      (category, count) pairs, are the run-length count of what they
      submitted, continuing the runs they had. */
  lemma {:induction false} ReplayTallies(s: seq<Event>, f: Id, user: Id, cs: seq<Id>)
    requires Wellformed(s, f)
    ensures Summary(Owned(Replay(s, f, user, cs), user)) == TallyAll(Summary(Owned(s, user)), cs)
    decreases |cs|
  {
    if cs != [] {
      var s1 := Consolidate(s, f, user, cs[0]);
      ConsolidateTallies(s, f, user, cs[0]);
      ConsolidateKeepsWellformed(s, f, user, cs[0]);
      ReplayTallies(s1, NextFreshId(s, f, user, cs[0]), user, cs[1..]);
    }
  }

  /** Run-length counting of c1, c1, c2, c1 from nothing gives the runs
      (c1, 2), (c2, 1), (c1, 1). */
  lemma TallyExample(c1: Id, c2: Id)
    requires c1 != c2
    ensures TallyAll([], [c1, c1, c2, c1]) == [(c1, 2), (c2, 1), (c1, 1)]
  {
    assert [c1, c1, c2, c1][1..] == [c1, c2, c1];
    assert [c1, c2, c1][1..] == [c2, c1];
    assert [c2, c1][1..] == [c1];
    assert [c1][1..] == [];
    assert Tally([], c1) == [(c1, 1)];
    assert [(c1, 1)][..0] == [];
    assert Tally([(c1, 1)], c1) == [(c1, 2)];
    assert Tally([(c1, 2)], c2) == [(c1, 2), (c2, 1)];
    assert Tally([(c1, 2), (c2, 1)], c1) == [(c1, 2), (c2, 1), (c1, 1)];
    assert TallyAll([(c1, 2), (c2, 1)], [c1]) == [(c1, 2), (c2, 1), (c1, 1)];
    assert TallyAll([(c1, 2)], [c2, c1]) == [(c1, 2), (c2, 1), (c1, 1)];
    assert TallyAll([(c1, 1)], [c1, c2, c1]) == [(c1, 2), (c2, 1), (c1, 1)];
  }

  /** The worked example: with no events of their own, a caller who submits
      c1, c1, c2, c1 ends up with three events, of c1, c2 and c1, with
      counts 2, 1, 1. */
  lemma ReplayExample(s0: seq<Event>, f: Id, user: Id, c1: Id, c2: Id)
    requires Wellformed(s0, f)
    requires Owned(s0, user) == []
    requires c1 != c2
    ensures Summary(Owned(Replay(s0, f, user, [c1, c1, c2, c1]), user)) == [(c1, 2), (c2, 1), (c1, 1)]
  {
    ReplayTallies(s0, f, user, [c1, c1, c2, c1]);
    TallyExample(c1, c2);
  }

  // ----- The invalid-category fall-through -----

  /** As written, a category the caller does not own is answered with
      'Invalid category.' and yet a new event is stored. */
  lemma InvalidCategoryStillWrites()
    ensures var o := SubmitEffect([], 0, 1, Some(7), [], NoFault);
            o.response == Err(422, MsgInvalidCategory) && o.events == [Event(0, 1, 7, 1)]
  {
  }

  /** As written, in general: a category the caller does not own, when the
      category lookup and the save succeed, is answered 'Invalid category.'
      and a fresh event of count 1 is appended, even when the caller's latest
      event already has that category, so it is never consolidated. */
  lemma InvalidCategoryAppendsFresh(s: seq<Event>, freshId: Id, user: Id, c: Id,
                                    categories: seq<Category>, fault: SubmitFault)
    requires Wellformed(s, freshId)
    requires Categories.FindCategory(categories, c, user).None?
    requires fault != CategoryLookupFails && fault != SaveFails
    ensures SubmitEffect(s, freshId, user, Some(c), categories, fault)
            == Outcome(Err(422, MsgInvalidCategory), s + [Event(freshId, user, c, 1)])
  {
    WithoutAbsent(s, freshId);
  }

  /** As intended, every error response leaves the store untouched, and the
      intended handler agrees with the written one on every valid or missing
      category. */
  lemma {:induction false} IntendedErrorsWriteNothing(s: seq<Event>, freshId: Id, user: Id, category: Option<Id>,
                                                      categories: seq<Category>, fault: SubmitFault)
    requires Wellformed(s, freshId)
    ensures var o := IntendedSubmitEffect(s, freshId, user, category, categories, fault);
            !o.response.Ok? ==> o.events == s
    ensures (category.None? || Categories.FindCategory(categories, category.value, user).Some?)
            ==> IntendedSubmitEffect(s, freshId, user, category, categories, fault)
                == SubmitEffect(s, freshId, user, category, categories, fault)
  {
  }

  /** The corrected handler keeps the guarantees of the written one: the
      store stays well formed and other users' events are left alone. */
  lemma {:induction false} IntendedKeepsGuarantees(s: seq<Event>, freshId: Id, user: Id, category: Option<Id>,
                                                   categories: seq<Category>, fault: SubmitFault, other: Id)
    requires Wellformed(s, freshId)
    requires other != user
    ensures var s' := IntendedSubmitEffect(s, freshId, user, category, categories, fault).events;
            Wellformed(s', freshId + 1) && Owned(s', other) == Owned(s, other)
  {
    SubmitKeepsWellformed(s, freshId, user, category, categories, fault);
    SubmitLeavesOthersAlone(s, freshId, user, category, categories, fault, other);
    var s' := IntendedSubmitEffect(s, freshId, user, category, categories, fault).events;
    if s' == s {
      assert forall i :: 0 <= i < |s| ==> s[i].id < freshId + 1;
    }
  }
}
