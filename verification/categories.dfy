/** The category registry (app/api/categories.js): `add`, `remove`, `modify`
    and `list`, each scoped to the calling user. */
module Categories {
  import opened Requests
  import opened Models

  const MsgNoName := "You must enter a category name."
  const MsgCreated := "Category created"
  const MsgCreationError := "Category creation error"
  const MsgNoCategory := "No category specified."
  const MsgRemoved := "Category removed"
  const MsgRemovalError := "Category removal error"
  const MsgNoParameters := "No parameters specified."
  const MsgNotModified := "No modified parameters specified."
  const MsgModified := "Category modified"
  const MsgModificationError := "Category modification error"
  const MsgListError := "Error quering for categories."

  /** The optional fields of an `add` or `modify` body. `start` is `None` when
      absent or falsy. */
  datatype Fields = Fields(
    name: Option<string>,
    start: Option<bool>,
    code: Option<string>,
    context: Option<string>)

  /** JavaScript truthiness of the `start` field. */
  predicate StartTruthy(start: Option<bool>)
  {
    start == Some(true)
  }

  /** The database step of `modify` that fails when reached, if any. */
  datatype ModifyFault = NoFault | LookupFails | SaveFails

  // ----- Queries -----

  /** `Category.findOne({_id: id, user})`: the first record with that id that
      the caller owns. */
  function FindCategory(s: seq<Category>, id: Id, user: Id): (r: Option<nat>)
    ensures r.Some? ==> r.value < |s| && s[r.value].id == id && s[r.value].user == user
    ensures r.Some? ==> forall j :: 0 <= j < r.value ==> !(s[j].id == id && s[j].user == user)
    ensures r.None? ==> forall j :: 0 <= j < |s| ==> !(s[j].id == id && s[j].user == user)
  {
    if s == [] then None
    else if s[0].id == id && s[0].user == user then Some(0)
    else match FindCategory(s[1..], id, user)
      case None => None
      case Some(i) => Some(i + 1)
  }

  /** `Category.find({user})`: the caller's categories in store order. */
  function OwnedCategories(s: seq<Category>, user: Id): (r: seq<Category>)
    ensures |r| <= |s|
    ensures forall k :: 0 <= k < |r| ==> r[k].user == user
  {
    if s == [] then []
    else if s[|s| - 1].user == user then OwnedCategories(s[..|s| - 1], user) + [s[|s| - 1]]
    else OwnedCategories(s[..|s| - 1], user)
  }

  /** `Category.remove({_id: id, user})`: the store without the records that
      have that id and belong to the caller. */
  function RemoveMatching(s: seq<Category>, id: Id, user: Id): (r: seq<Category>)
    ensures |r| <= |s|
    ensures forall k :: 0 <= k < |r| ==> !(r[k].id == id && r[k].user == user)
  {
    if s == [] then []
    else
      var last := s[|s| - 1];
      if last.id == id && last.user == user then RemoveMatching(s[..|s| - 1], id, user)
      else RemoveMatching(s[..|s| - 1], id, user) + [last]
  }

  /** `page` is a run of consecutive entries of `xs`, starting at `skip`. */
  predicate Window(page: seq<Category>, xs: seq<Category>, skip: nat)
  {
    forall k :: 0 <= k < |page| ==> skip + k < |xs| && page[k] == xs[skip + k]
  }

  /** `.skip(skip).limit(limit)`: MongoDB skips first whatever the order of the
      calls, and a limit of 0 means no limit. */
  function Page(xs: seq<Category>, skip: nat, limit: nat): (r: seq<Category>)
    ensures Window(r, xs, skip)
    ensures limit > 0 ==> |r| <= limit
    ensures (limit == 0 || |r| < limit) ==> skip + |r| >= |xs|
  {
    var rest := if skip <= |xs| then xs[skip..] else [];
    if limit == 0 || limit >= |rest| then rest else rest[..limit]
  }

  /** `list` (categories.js:139-152): the caller's categories after skipping
      `start` (0 when absent), at most `pageSize` of them (the configured
      default when absent). */
  function List(s: seq<Category>, user: Id, start: Option<nat>, pageSize: Option<nat>,
                defaultPageSize: nat, fails: bool): (r: Response<seq<Category>>)
    ensures fails <==> r == Err(422, MsgListError)
    ensures !fails ==> r.Ok?
    ensures r.Ok? ==> r.status == 200
    ensures r.Ok? ==> var skip := if start.Some? then start.value else 0;
                      var limit := if pageSize.Some? then pageSize.value else defaultPageSize;
                      && Window(r.body, OwnedCategories(s, user), skip)
                      && (limit > 0 ==> |r.body| <= limit)
                      && ((limit == 0 || |r.body| < limit) ==> skip + |r.body| >= |OwnedCategories(s, user)|)
  {
    if fails then Err(422, MsgListError)
    else
      var skip := if start.Some? then start.value else 0;
      var limit := if pageSize.Some? then pageSize.value else defaultPageSize;
      Ok(200, Page(OwnedCategories(s, user), skip, limit))
  }

  /** The record `modify` saves: every truthy supplied field is written, every
      other field kept. */
  function Merge(c: Category, f: Fields): (r: Category)
    ensures r.id == c.id && r.user == c.user
    ensures !AnyField(f) ==> r == c
  {
    c.(name := if Truthy(f.name) then f.name.value else c.name,
       start := if StartTruthy(f.start) then true else c.start,
       code := if Truthy(f.code) then f.code else c.code,
       context := if Truthy(f.context) then f.context else c.context)
  }

  /** No two categories share an id. */
  ghost predicate DistinctIds(s: seq<Category>)
  {
    forall i, j :: 0 <= i < j < |s| ==> s[i].id != s[j].id
  }

  // ----- Record building, as the handlers do it -----

  /** `add` builds its record (categories.js:37-49): `start` defaults to
      false, `code` and `context` are set only when truthy. */
  method BuildCategory(id: Id, user: Id, f: Fields) returns (c: Category)
    requires Truthy(f.name)
    ensures c.id == id && c.user == user && c.name == f.name.value
    ensures c.start <==> StartTruthy(f.start)
    ensures c.code.Some? <==> Truthy(f.code)
    ensures c.code.Some? ==> c.code == f.code
    ensures c.context.Some? <==> Truthy(f.context)
    ensures c.context.Some? ==> c.context == f.context
  {
    var start := StartTruthy(f.start);
    c := Category(id, user, f.name.value, start, None, None);
    if Truthy(f.code) {
      c := c.(code := f.code);
    }
    if Truthy(f.context) {
      c := c.(context := f.context);
    }
  }

  /** `modify` sets the fields one by one under a `modified` flag
      (categories.js:104-120): a truthy field is written when it differs from
      the stored value. */
  method ApplyFields(c: Category, f: Fields) returns (c': Category, modified: bool)
    ensures c' == Merge(c, f)
    ensures modified <==> c' != c
  {
    c' := c;
    modified := false;
    if Truthy(f.name) && c'.name != f.name.value {
      c' := c'.(name := f.name.value);
      modified := true;
    }
    if StartTruthy(f.start) && c'.start != true {
      c' := c'.(start := true);
      modified := true;
    }
    if Truthy(f.code) && c'.code != f.code {
      c' := c'.(code := f.code);
      modified := true;
    }
    if Truthy(f.context) && c'.context != f.context {
      c' := c'.(context := f.context);
      modified := true;
    }
  }

  // ----- The store as an object -----

  class CategoryStore {
    var categories: seq<Category>
    var nextId: Id

    ghost predicate Valid()
      reads this
    {
      && DistinctIds(categories)
      && forall i :: 0 <= i < |categories| ==> categories[i].id < nextId
    }

    constructor ()
      ensures Valid() && categories == [] && nextId == 0
    {
      categories := [];
      nextId := 0;
    }

    /** `add` (categories.js:26-59) for the caller `user`. */
    method Add(user: Id, f: Fields, saveFails: bool) returns (r: Response<string>)
      requires Valid()
      modifies this
      ensures Valid()
      ensures !Truthy(f.name) ==> r == Err(422, MsgNoName) && categories == old(categories) && nextId == old(nextId)
      ensures Truthy(f.name) && saveFails ==> r == Err(422, MsgCreationError) && categories == old(categories)
      ensures Truthy(f.name) && !saveFails ==>
        && r == Ok(200, MsgCreated)
        && |categories| == |old(categories)| + 1
        && categories[..|old(categories)|] == old(categories)
        && var c := categories[|old(categories)|];
           && c.id == old(nextId) && c.user == user && c.name == f.name.value
           && (c.start <==> StartTruthy(f.start))
           && c.code == (if Truthy(f.code) then f.code else None)
           && c.context == (if Truthy(f.context) then f.context else None)
      ensures nextId == old(nextId) + (if Truthy(f.name) then 1 else 0)
    {
      if !Truthy(f.name) {
        return Err(422, MsgNoName);
      }
      var c := BuildCategory(nextId, user, f);
      nextId := nextId + 1;
      if saveFails {
        return Err(422, MsgCreationError);
      }
      categories := categories + [c];
      r := Ok(200, MsgCreated);
    }

    /** `remove` (categories.js:64-80) for the caller `user`. */
    method Remove(user: Id, id: Option<Id>, removeFails: bool) returns (r: Response<string>)
      requires Valid()
      modifies this
      ensures Valid() && nextId == old(nextId)
      ensures id.None? ==> r == Err(422, MsgNoCategory) && categories == old(categories)
      ensures id.Some? && removeFails ==> r == Err(422, MsgRemovalError) && categories == old(categories)
      ensures id.Some? && !removeFails ==>
        r == Ok(200, MsgRemoved) && categories == RemoveMatching(old(categories), id.value, user)
    {
      if id.None? {
        return Err(422, MsgNoCategory);
      }
      if removeFails {
        return Err(422, MsgRemovalError);
      }
      RemoveKeepsDistinct(categories, id.value, user, nextId);
      categories := RemoveMatching(categories, id.value, user);
      r := Ok(200, MsgRemoved);
    }

    /** `modify` (categories.js:85-134) for the caller `user`. A lookup that
      finds nothing fails like a failed lookup: the handler then reads a field
      of `null` and lands in the same `catch`. */
    method Modify(user: Id, id: Option<Id>, f: Fields, fault: ModifyFault) returns (r: Response<string>)
      requires Valid()
      modifies this
      ensures Valid() && nextId == old(nextId)
      ensures id.None? ==> r == Err(422, MsgNoCategory) && categories == old(categories)
      ensures id.Some? && !AnyField(f) ==> r == Err(422, MsgNoParameters) && categories == old(categories)
      ensures id.Some? && AnyField(f) && (fault == LookupFails || FindCategory(old(categories), id.value, user).None?)
              ==> r == Err(422, MsgModificationError) && categories == old(categories)
      ensures id.Some? && AnyField(f) && fault != LookupFails && FindCategory(old(categories), id.value, user).Some? ==>
        var i := FindCategory(old(categories), id.value, user).value;
        var c' := Merge(old(categories)[i], f);
        if c' == old(categories)[i] then r == Err(422, MsgNotModified) && categories == old(categories)
        else if fault == SaveFails then r == Err(422, MsgModificationError) && categories == old(categories)
        else r == Ok(200, MsgModified) && categories == old(categories)[i := c']
    {
      if id.None? {
        return Err(422, MsgNoCategory);
      }
      if !AnyField(f) {
        return Err(422, MsgNoParameters);
      }
      if fault == LookupFails {
        return Err(422, MsgModificationError);
      }
      var found := FindCategory(categories, id.value, user);
      if found.None? {
        return Err(422, MsgModificationError);
      }
      var i := found.value;
      var c', modified := ApplyFields(categories[i], f);
      if !modified {
        return Err(422, MsgNotModified);
      }
      if fault == SaveFails {
        return Err(422, MsgModificationError);
      }
      categories := categories[i := c'];
      r := Ok(200, MsgModified);
    }
  }

  /** The test at categories.js:98, negated: some field to modify is truthy. */
  predicate AnyField(f: Fields)
  {
    Truthy(f.name) || StartTruthy(f.start) || Truthy(f.code) || Truthy(f.context)
  }

  // ----- Lemmas -----

  /** A category survives a removal if and only if it does not both have the
      id and belong to the caller. */
  lemma {:induction false} RemoveMatchingMember(s: seq<Category>, id: Id, user: Id, c: Category)
    ensures c in RemoveMatching(s, id, user) <==> c in s && !(c.id == id && c.user == user)
  {
    if s != [] {
      var p := s[..|s| - 1];
      assert s == p + [s[|s| - 1]];
      RemoveMatchingMember(p, id, user, c);
    }
  }

  /** A removal keeps ids distinct and below any bound they were below. */
  lemma {:induction false} RemoveKeepsDistinct(s: seq<Category>, id: Id, user: Id, bound: Id)
    requires DistinctIds(s)
    requires forall i :: 0 <= i < |s| ==> s[i].id < bound
    ensures DistinctIds(RemoveMatching(s, id, user))
    ensures forall i :: 0 <= i < |RemoveMatching(s, id, user)| ==> RemoveMatching(s, id, user)[i].id < bound
  {
    if s != [] {
      var p := s[..|s| - 1];
      var x := s[|s| - 1];
      RemoveKeepsDistinct(p, id, user, bound);
      var w := RemoveMatching(p, id, user);
      forall i | 0 <= i < |w| ensures w[i].id != x.id {
        RemoveMatchingMember(p, id, user, w[i]);
        var k :| 0 <= k < |p| && p[k] == w[i];
      }
    }
  }

  lemma {:induction false} OwnedCategoriesSnoc(s: seq<Category>, c: Category, user: Id)
    ensures OwnedCategories(s + [c], user) == if c.user == user then OwnedCategories(s, user) + [c] else OwnedCategories(s, user)
  {
    assert (s + [c])[..|s|] == s;
  }

  /** The caller's categories are exactly the stored categories the caller
      owns. */
  lemma {:induction false} OwnedCategoriesMember(s: seq<Category>, user: Id, c: Category)
    ensures c in OwnedCategories(s, user) <==> c in s && c.user == user
  {
    if s != [] {
      var p := s[..|s| - 1];
      assert s == p + [s[|s| - 1]];
      OwnedCategoriesMember(p, user, c);
    }
  }

  /** Every category `list` returns is stored and belongs to the caller. */
  lemma ListReturnsOwnCategories(s: seq<Category>, user: Id, start: Option<nat>, pageSize: Option<nat>,
                                 defaultPageSize: nat, c: Category)
    requires List(s, user, start, pageSize, defaultPageSize, false).Ok?
    requires c in List(s, user, start, pageSize, defaultPageSize, false).body
    ensures c in s && c.user == user
  {
    var o := OwnedCategories(s, user);
    var body := List(s, user, start, pageSize, defaultPageSize, false).body;
    var k :| 0 <= k < |body| && body[k] == c;
    var skip := if start.Some? then start.value else 0;
    assert c == o[skip + k];
    OwnedCategoriesMember(s, user, c);
  }

  /** `remove` never touches another user's categories, whatever the id. */
  lemma {:induction false} RemoveLeavesOthersAlone(s: seq<Category>, id: Id, user: Id, other: Id)
    requires other != user
    ensures OwnedCategories(RemoveMatching(s, id, user), other) == OwnedCategories(s, other)
  {
    if s != [] {
      var p := s[..|s| - 1];
      var x := s[|s| - 1];
      RemoveLeavesOthersAlone(p, id, user, other);
      if !(x.id == id && x.user == user) {
        OwnedCategoriesSnoc(RemoveMatching(p, id, user), x, other);
      }
    }
  }

  /** An id the caller does not own removes nothing (and `remove` still
      reports success). */
  lemma {:induction false} RemoveUnmatchedIsNoOp(s: seq<Category>, id: Id, user: Id)
    requires FindCategory(s, id, user).None?
    ensures RemoveMatching(s, id, user) == s
  {
    if s != [] {
      var p := s[..|s| - 1];
      forall j | 0 <= j < |p| ensures !(p[j].id == id && p[j].user == user) {
        assert p[j] == s[j];
      }
      RemoveUnmatchedIsNoOp(p, id, user);
      assert s == p + [s[|s| - 1]];
    }
  }

  /** What `modify` saves: a truthy field wins, anything else is kept, and
      the id and owner never change. */
  lemma MergeWritesTruthyFields(c: Category, f: Fields)
    ensures var c' := Merge(c, f);
            && c'.id == c.id && c'.user == c.user
            && (Truthy(f.name) ==> c'.name == f.name.value) && (!Truthy(f.name) ==> c'.name == c.name)
            && (StartTruthy(f.start) ==> c'.start) && (!StartTruthy(f.start) ==> c'.start == c.start)
            && (Truthy(f.code) ==> c'.code == f.code) && (!Truthy(f.code) ==> c'.code == c.code)
            && (Truthy(f.context) ==> c'.context == f.context) && (!Truthy(f.context) ==> c'.context == c.context)
  {
  }

  /** Consequently `modify` can never turn `start` off or clear `code` or
      `context`. */
  lemma MergeNeverClears(c: Category, f: Fields)
    ensures var c' := Merge(c, f);
            && (c.start ==> c'.start)
            && (c.code.Some? ==> c'.code.Some?)
            && (c.context.Some? ==> c'.context.Some?)
            && (c.name != "" ==> c'.name != "")
  {
  }

  /** Sending the same modification twice: the second time nothing differs,
      so it is answered 'No modified parameters specified.'. */
  lemma MergeIdempotent(c: Category, f: Fields)
    ensures Merge(Merge(c, f), f) == Merge(c, f)
  {
  }

  /** Consecutive pages join up: the page of `n` after `skip` followed by the
      page of `m` after `skip + n` is the page of `n + m` after `skip`. */
  lemma {:induction false} PagesJoin(xs: seq<Category>, skip: nat, n: nat, m: nat)
    requires n > 0 && m > 0
    ensures Page(xs, skip, n) + Page(xs, skip + n, m) == Page(xs, skip, n + m)
  {
    var a := Page(xs, skip, n);
    var b := Page(xs, skip + n, m);
    var ab := Page(xs, skip, n + m);
    assert |a + b| == |ab|;
    forall k | 0 <= k < |ab| ensures (a + b)[k] == ab[k] {
      if k < |a| {
        assert (a + b)[k] == a[k];
      } else {
        assert (a + b)[k] == b[k - |a|];
      }
    }
  }

  /** Round trip: a category the caller just added is the last entry of the
      caller's list, found with `start` at the number of categories they had
      before. */
  lemma {:induction false} AddThenList(s: seq<Category>, c: Category, user: Id, defaultPageSize: nat)
    requires c.user == user
    ensures List(s + [c], user, Some(|OwnedCategories(s, user)|), Some(1), defaultPageSize, false) == Ok(200, [c])
  {
    OwnedCategoriesSnoc(s, c, user);
  }
}
