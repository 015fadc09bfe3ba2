/** The project routes (routes/projects.js) over the `projects` table, joined
    with the `users` table for the author's name. */
module Projects {
  import opened Common

  const MIN_TITLE_LENGTH := 3
  const MIN_DESCRIPTION_LENGTH := 10

  const REQUIRED_MSG := "Title and description are required"
  const TITLE_TOO_SHORT_MSG := "Title must be at least 3 characters"
  const DESCRIPTION_TOO_SHORT_MSG := "Description must be at least 10 characters"
  const NOT_FOUND_MSG := "Project not found"
  const EDIT_FORBIDDEN_MSG := "You can only edit your own projects"
  const DELETE_FORBIDDEN_MSG := "You can only delete your own projects"

  /** A row of `projects`; its id is the key it is stored under. */
  datatype Project = Project(title: string, description: string, authorId: int, createdAt: int)

  /** A row of GET / and GET /:id: the project joined with its author. */
  datatype Listing = Listing(id: int, title: string, description: string, createdAt: int,
                             authorName: string, authorId: int)

  /** The project sent back by POST / and PUT /:id: the same join without `author_id`. */
  datatype Summary = Summary(id: int, title: string, description: string, createdAt: int,
                             authorName: string)

  /** What a handler answers, without the HTTP plumbing. */
  datatype Outcome<+T> =
    | Ok(value: T)
    | BadRequest(msg: string)
    | NotFound(msg: string)
    | Forbidden(msg: string)

  function ListingOf(id: int, p: Project, authorName: string): Listing
  {
    Listing(id, p.title, p.description, p.createdAt, authorName, p.authorId)
  }

  function SummaryOf(id: int, p: Project, authorName: string): Summary
  {
    Summary(id, p.title, p.description, p.createdAt, authorName)
  }

  /** The order of GET /: newer `created_at` first; rows with the same
      timestamp by ascending id. */
  predicate Precedes(a: Listing, b: Listing)
  {
    a.createdAt > b.createdAt || (a.createdAt == b.createdAt && a.id < b.id)
  }

  predicate Ordered(s: seq<Listing>)
  {
    forall i, j :: 0 <= i < j < |s| ==> Precedes(s[i], s[j])
  }

  predicate DistinctIds(s: seq<Listing>)
  {
    forall i, j :: 0 <= i < j < |s| ==> s[i].id != s[j].id
  }

  /** Insert a row into an ordered list whose ids all differ from its own. */
  function Insert(x: Listing, s: seq<Listing>): (r: seq<Listing>)
    requires Ordered(s)
    requires forall y :: y in s ==> y.id != x.id
    ensures Ordered(r)
    ensures multiset(r) == multiset(s) + multiset{x}
  {
    if s == [] || Precedes(x, s[0]) then
      [x] + s
    else
      var t := Insert(x, s[1..]);
      assert forall y :: y in t ==> Precedes(s[0], y) by {
        forall y | y in t
          ensures Precedes(s[0], y)
        {
          assert y in multiset(t);
          if y != x {
            assert y in multiset(s[1..]);
            var k :| 0 <= k < |s[1..]| && s[1..][k] == y;
            assert s[k + 1] == y;
          }
        }
      }
      assert s == [s[0]] + s[1..];
      [s[0]] + t
  }

  /** Sort rows with distinct ids into the order of GET /. */
  function Sort(s: seq<Listing>): (r: seq<Listing>)
    requires DistinctIds(s)
    ensures Ordered(r)
    ensures multiset(r) == multiset(s)
  {
    if s == [] then []
    else
      var t := Sort(s[1..]);
      assert forall y :: y in t ==> y.id != s[0].id by {
        forall y | y in t
          ensures y.id != s[0].id
        {
          assert y in multiset(s[1..]);
          var k :| 0 <= k < |s[1..]| && s[1..][k] == y;
          assert s[k + 1] == y;
        }
      }
      assert s == [s[0]] + s[1..];
      Insert(s[0], t)
  }

  /** The `projects` table together with the `users` table it is joined with.
      The handlers never write `users`. */
  class Store {
    const users: map<int, string>
    var projects: map<int, Project>
    var nextId: int

    /** AUTOINCREMENT ids start at 1, and every id handed out is below `nextId`. */
    ghost predicate Valid()
      reads this
    {
      1 <= nextId && forall id :: id in projects ==> 1 <= id < nextId
    }

    constructor (users: map<int, string>)
      ensures Valid()
      ensures this.users == users && projects == map[] && nextId == 1
    {
      this.users := users;
      projects := map[];
      nextId := 1;
    }

    /** `l` is the inner join of a stored project with its author. */
    predicate IsJoinedRow(l: Listing)
      reads this
    {
      && l.id in projects
      && projects[l.id].authorId in users
      && l == ListingOf(l.id, projects[l.id], users[projects[l.id].authorId])
    }

    /** The joined rows with ids in [lo, hi), by ascending id. */
    function Rows(lo: int, hi: int): (r: seq<Listing>)
      reads this
      ensures forall i, j :: 0 <= i < j < |r| ==> r[i].id < r[j].id
      ensures forall l :: l in r <==> lo <= l.id < hi && IsJoinedRow(l)
      decreases hi - lo
    {
      if lo >= hi then []
      else
        var rest := Rows(lo + 1, hi);
        if lo in projects && projects[lo].authorId in users then
          [ListingOf(lo, projects[lo], users[projects[lo].authorId])] + rest
        else
          rest
    }

    /** GET /: every project whose author exists, once, newest first. */
    function List(): (r: seq<Listing>)
      reads this
      requires Valid()
      ensures Ordered(r)
      ensures forall l :: l in r <==> IsJoinedRow(l)
    {
      var rows := Rows(1, nextId);
      var r := Sort(rows);
      assert forall l :: l in r <==> l in rows by {
        forall l
          ensures l in r <==> l in rows
        {
          assert l in r <==> l in multiset(r);
          assert l in rows <==> l in multiset(rows);
        }
      }
      r
    }

    /** GET /:id: the joined row, or not found when there is no such project
        or its author is missing from `users`. */
    function Get(id: int): (r: Outcome<Listing>)
      reads this
      ensures r.Ok? <==> id in projects && projects[id].authorId in users
      ensures r.Ok? ==> r.value.id == id && IsJoinedRow(r.value)
      ensures !r.Ok? ==> r == NotFound(NOT_FOUND_MSG)
    {
      if id in projects && projects[id].authorId in users then
        Ok(ListingOf(id, projects[id], users[projects[id].authorId]))
      else
        NotFound(NOT_FOUND_MSG)
    }

    /** The project as the post-write SELECT returns it: undefined when the
        author has no row in `users`. */
    function Returned(id: int): Option<Summary>
      reads this
      requires id in projects
    {
      if projects[id].authorId in users then
        Some(SummaryOf(id, projects[id], users[projects[id].authorId]))
      else
        None
    }

    /** POST /: require both fields, then the title length, then the
        description length; insert a row owned by the caller. */
    method Create(caller: int, title: Field, description: Field, now: int)
      returns (r: Outcome<Option<Summary>>)
      requires Valid()
      modifies this
      ensures Valid()
      ensures !Truthy(title) || !Truthy(description) ==>
                r == BadRequest(REQUIRED_MSG) && projects == old(projects) && nextId == old(nextId)
      ensures Truthy(title) && Truthy(description) && |title.value| < MIN_TITLE_LENGTH ==>
                r == BadRequest(TITLE_TOO_SHORT_MSG) && projects == old(projects) && nextId == old(nextId)
      ensures && Truthy(title) && Truthy(description) && |title.value| >= MIN_TITLE_LENGTH
              && |description.value| < MIN_DESCRIPTION_LENGTH ==>
                r == BadRequest(DESCRIPTION_TOO_SHORT_MSG) && projects == old(projects) && nextId == old(nextId)
      ensures && Truthy(title) && Truthy(description) && |title.value| >= MIN_TITLE_LENGTH
              && |description.value| >= MIN_DESCRIPTION_LENGTH ==>
                var id := old(nextId);
                && id !in old(projects)
                && projects == old(projects)[id := Project(title.value, description.value, caller, now)]
                && nextId == id + 1
                && r == Ok(Returned(id))
                && (caller in users ==> Get(id).Ok? && Get(id).value.authorId == caller)
    {
      if !Truthy(title) || !Truthy(description) {
        return BadRequest(REQUIRED_MSG);
      }
      if |title.value| < MIN_TITLE_LENGTH {
        return BadRequest(TITLE_TOO_SHORT_MSG);
      }
      if |description.value| < MIN_DESCRIPTION_LENGTH {
        return BadRequest(DESCRIPTION_TOO_SHORT_MSG);
      }
      var id := nextId;
      projects := projects[id := Project(title.value, description.value, caller, now)];
      nextId := nextId + 1;
      r := Ok(Returned(id));
    }

    /** PUT /:id: not found, then not the owner, then missing fields; only
        then replace the title and description. No length rule applies. */
    method Update(caller: int, id: int, title: Field, description: Field)
      returns (r: Outcome<Option<Summary>>)
      requires Valid()
      modifies this
      ensures Valid() && nextId == old(nextId)
      ensures id !in old(projects) ==>
                r == NotFound(NOT_FOUND_MSG) && projects == old(projects)
      ensures id in old(projects) && old(projects)[id].authorId != caller ==>
                r == Forbidden(EDIT_FORBIDDEN_MSG) && projects == old(projects)
      ensures && id in old(projects) && old(projects)[id].authorId == caller
              && (!Truthy(title) || !Truthy(description)) ==>
                r == BadRequest(REQUIRED_MSG) && projects == old(projects)
      ensures && id in old(projects) && old(projects)[id].authorId == caller
              && Truthy(title) && Truthy(description) ==>
                && projects == old(projects)[id := old(projects)[id].(title := title.value,
                                                                      description := description.value)]
                && r == Ok(Returned(id))
    {
      if id !in projects {
        return NotFound(NOT_FOUND_MSG);
      }
      if projects[id].authorId != caller {
        return Forbidden(EDIT_FORBIDDEN_MSG);
      }
      if !Truthy(title) || !Truthy(description) {
        return BadRequest(REQUIRED_MSG);
      }
      projects := projects[id := projects[id].(title := title.value, description := description.value)];
      r := Ok(Returned(id));
    }

    /** DELETE /:id: not found, then not the owner; only then remove the row. */
    method Delete(caller: int, id: int) returns (r: Outcome<()>)
      requires Valid()
      modifies this
      ensures Valid() && nextId == old(nextId)
      ensures id !in old(projects) ==>
                r == NotFound(NOT_FOUND_MSG) && projects == old(projects)
      ensures id in old(projects) && old(projects)[id].authorId != caller ==>
                r == Forbidden(DELETE_FORBIDDEN_MSG) && projects == old(projects)
      ensures id in old(projects) && old(projects)[id].authorId == caller ==>
                && r == Ok(())
                && projects == old(projects) - {id}
                && Get(id) == NotFound(NOT_FOUND_MSG)
    {
      if id !in projects {
        return NotFound(NOT_FOUND_MSG);
      }
      if projects[id].authorId != caller {
        return Forbidden(DELETE_FORBIDDEN_MSG);
      }
      projects := projects - {id};
      r := Ok(());
    }
  }

  /** GET /:id finds a project exactly when GET / lists it, with the same row. */
  lemma GetAgreesWithList(s: Store, id: int)
    requires s.Valid()
    ensures s.Get(id).Ok? ==> s.Get(id).value in s.List()
    ensures forall l :: l in s.List() && l.id == id ==> s.Get(id) == Ok(l)
  {
  }

  /** GET / never shows one project twice. */
  lemma ListHasDistinctIds(s: Store)
    requires s.Valid()
    ensures DistinctIds(s.List())
  {
  }

  /** Rows listed by GET / have non-increasing `created_at`. */
  lemma ListNewestFirst(s: Store)
    requires s.Valid()
    ensures forall i, j :: 0 <= i < j < |s.List()| ==> s.List()[i].createdAt >= s.List()[j].createdAt
  {
  }

  /** The head of an ordered list precedes every other row in it. */
  lemma HeadPrecedes(a: seq<Listing>, l: Listing)
    requires Ordered(a) && l in a && l != a[0]
    ensures Precedes(a[0], l)
  {
  }

  /** Two ordered lists holding the same rows are the same list. */
  lemma {:induction false} OrderedUnique(a: seq<Listing>, b: seq<Listing>)
    requires Ordered(a) && Ordered(b)
    requires forall l :: l in a <==> l in b
    ensures a == b
  {
    assert a == [] <==> b == [] by {
      if a != [] { assert a[0] in b; }
      if b != [] { assert b[0] in a; }
    }
    if a != [] {
      if a[0] != b[0] {
        HeadPrecedes(a, b[0]);
        HeadPrecedes(b, a[0]);
        assert false;
      }
      forall l
        ensures l in a[1..] <==> l in b[1..]
      {
        if l in a[1..] {
          var k :| 1 <= k < |a| && a[k] == l;
          assert Precedes(a[0], l) && l in b;
          assert b == [b[0]] + b[1..];
        }
        if l in b[1..] {
          var k :| 1 <= k < |b| && b[k] == l;
          assert Precedes(b[0], l) && l in a;
          assert a == [a[0]] + a[1..];
        }
      }
      OrderedUnique(a[1..], b[1..]);
      assert a == [a[0]] + a[1..] && b == [b[0]] + b[1..];
    }
  }

  /** GET / is fully determined: any ordered list of exactly the joined rows
      is the one it returns. */
  lemma ListIsDetermined(s: Store, r: seq<Listing>)
    requires s.Valid()
    requires Ordered(r)
    requires forall l :: l in r <==> s.IsJoinedRow(l)
    ensures r == s.List()
  {
    OrderedUnique(r, s.List());
  }
}
