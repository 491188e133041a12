/**
 * The subscriber store the subscription service is written against: rows
 * keyed by a surrogate id, a unique index on the email, five newsletter
 * flags per row, bulk flag updates, deletion, and the sorted and filtered
 * listing behind the admin page.
 */
module SubscriberStore {
  import opened Wrappers
  import opened Text

  datatype Newsletter = Kost | Mindset | Kunskap | VeckansPass | Jaine

  /** The key of a newsletter in a selections dictionary and in a filter. */
  function Key(n: Newsletter): string {
    match n
    case Kost => "kost"
    case Mindset => "mindset"
    case Kunskap => "kunskap"
    case VeckansPass => "veckans_pass"
    case Jaine => "jaine"
  }

  /** The newsletter a filter argument names, if it names one. */
  function NewsletterNamed(name: string): (r: Option<Newsletter>)
    ensures r.Some? ==> Key(r.value) == name
    ensures r.None? ==> forall n: Newsletter :: Key(n) != name
  {
    if name == "kost" then Some(Kost)
    else if name == "mindset" then Some(Mindset)
    else if name == "kunskap" then Some(Kunskap)
    else if name == "veckans_pass" then Some(VeckansPass)
    else if name == "jaine" then Some(Jaine)
    else None
  }

  lemma NewsletterNamedKey(n: Newsletter)
    ensures NewsletterNamed(Key(n)) == Some(n)
  {
  }

  /** The five newsletter columns of a subscriber row. */
  datatype Flags = Flags(kost: bool, mindset: bool, kunskap: bool, veckansPass: bool, jaine: bool)
  {
    function Get(n: Newsletter): bool {
      match n
      case Kost => kost
      case Mindset => mindset
      case Kunskap => kunskap
      case VeckansPass => veckansPass
      case Jaine => jaine
    }
  }

  /** Two flag sets that agree on every newsletter are equal. */
  lemma FlagsExtensional(f: Flags, g: Flags)
    requires forall n: Newsletter :: f.Get(n) == g.Get(n)
    ensures f == g
  {
    assert f.Get(Kost) == g.Get(Kost) && f.Get(Mindset) == g.Get(Mindset);
    assert f.Get(Kunskap) == g.Get(Kunskap) && f.Get(VeckansPass) == g.Get(VeckansPass);
    assert f.Get(Jaine) == g.Get(Jaine);
  }

  /** `selections.get(key, False)`, or False when no dictionary was given. */
  function Selected(selections: Option<map<string, bool>>, n: Newsletter): bool {
    selections.Some? && Key(n) in selections.value && selections.value[Key(n)]
  }

  /** The flags of a new row: each newsletter is on exactly when the
      selections turn it on; a missing key or a missing dictionary is off. */
  function FlagsFrom(selections: Option<map<string, bool>>): (r: Flags)
    ensures forall n: Newsletter :: r.Get(n) == Selected(selections, n)
    ensures selections.None? ==> r == Flags(false, false, false, false, false)
  {
    Flags(Selected(selections, Kost), Selected(selections, Mindset), Selected(selections, Kunskap),
          Selected(selections, VeckansPass), Selected(selections, Jaine))
  }

  /** A bulk update changes a flag only when its key is present with a value. */
  function ApplyUpdates(f: Flags, updates: map<string, Option<bool>>): (r: Flags)
    ensures forall n: Newsletter | Key(n) in updates && updates[Key(n)].Some? :: r.Get(n) == updates[Key(n)].value
    ensures forall n: Newsletter | Key(n) !in updates || updates[Key(n)].None? :: r.Get(n) == f.Get(n)
  {
    var pick := (n: Newsletter) =>
      if Key(n) in updates && updates[Key(n)].Some? then updates[Key(n)].value else f.Get(n);
    Flags(pick(Kost), pick(Mindset), pick(Kunskap), pick(VeckansPass), pick(Jaine))
  }

  /** Applying the same bulk update twice is the same as applying it once. */
  lemma ApplyUpdatesIdempotent(f: Flags, updates: map<string, Option<bool>>)
    ensures ApplyUpdates(ApplyUpdates(f, updates), updates) == ApplyUpdates(f, updates)
  {
    FlagsExtensional(ApplyUpdates(ApplyUpdates(f, updates), updates), ApplyUpdates(f, updates));
  }

  datatype Subscriber = Subscriber(id: int, email: string, name: string, flags: Flags)

  /** A subscriber after a bulk update: only the flags change. */
  function Refreshed(s: Subscriber, updates: map<string, Option<bool>>): Subscriber {
    s.(flags := ApplyUpdates(s.flags, updates))
  }

  lemma RefreshedIdempotent(s: Subscriber, updates: map<string, Option<bool>>)
    ensures Refreshed(Refreshed(s, updates), updates) == Refreshed(s, updates)
  {
    ApplyUpdatesIdempotent(s.flags, updates);
  }

  /** The rows after a bulk update of `ids`: the listed rows are refreshed,
      the others kept, and no row appears or disappears. */
  function RefreshRows(rows: map<int, Subscriber>, ids: seq<int>, updates: map<string, Option<bool>>)
    : (r: map<int, Subscriber>)
    ensures r.Keys == rows.Keys
    ensures forall id | id in r :: r[id] == if id in ids then Refreshed(rows[id], updates) else rows[id]
  {
    map id | id in rows :: if id in ids then Refreshed(rows[id], updates) else rows[id]
  }

  /** Repeating a bulk update with the same ids and values changes nothing. */
  lemma RefreshRowsIdempotent(rows: map<int, Subscriber>, ids: seq<int>, updates: map<string, Option<bool>>)
    ensures RefreshRows(RefreshRows(rows, ids, updates), ids, updates) == RefreshRows(rows, ids, updates)
  {
    forall id | id in rows && id in ids {
      RefreshedIdempotent(rows[id], updates);
    }
  }

  /** The stored ids that a bulk update names, each once. */
  function Listed(ids: seq<int>, keys: set<int>): set<int> {
    set id | id in ids && id in keys
  }

  /** The six orders of the listing. */
  datatype SortOrder = DateAsc | DateDesc | NameAsc | NameDesc | EmailAsc | EmailDesc

  function SortName(o: SortOrder): string {
    match o
    case DateAsc => "date_asc"
    case DateDesc => "date_desc"
    case NameAsc => "name_asc"
    case NameDesc => "name_desc"
    case EmailAsc => "email_asc"
    case EmailDesc => "email_desc"
  }

  /** The order a `sort_by` argument names; anything unrecognised is
      newest first. */
  function ParseSortOrder(sortBy: string): (r: SortOrder)
    ensures SortName(r) == sortBy || (r == DateDesc && forall o: SortOrder :: SortName(o) != sortBy)
  {
    if sortBy == "date_asc" then DateAsc
    else if sortBy == "name_asc" then NameAsc
    else if sortBy == "name_desc" then NameDesc
    else if sortBy == "email_asc" then EmailAsc
    else if sortBy == "email_desc" then EmailDesc
    else DateDesc
  }

  lemma ParseSortName(o: SortOrder)
    ensures ParseSortOrder(SortName(o)) == o
  {
  }

  /** `a` may come before `b` in a listing sorted by `o`. Creation date is
      represented by the id, which the store hands out in increasing order. */
  predicate Before(o: SortOrder, a: Subscriber, b: Subscriber) {
    match o
    case DateAsc => a.id <= b.id
    case DateDesc => b.id <= a.id
    case NameAsc => LexLe(a.name, b.name)
    case NameDesc => LexLe(b.name, a.name)
    case EmailAsc => LexLe(a.email, b.email)
    case EmailDesc => LexLe(b.email, a.email)
  }

  /** Any two subscribers can be compared in every order. */
  lemma BeforeTotal(o: SortOrder, a: Subscriber, b: Subscriber)
    ensures Before(o, a, b) || Before(o, b, a)
  {
    LexLeTotal(a.name, b.name);
    LexLeTotal(a.email, b.email);
  }

  lemma BeforeTransitive(o: SortOrder, a: Subscriber, b: Subscriber, c: Subscriber)
    requires Before(o, a, b) && Before(o, b, c)
    ensures Before(o, a, c)
  {
    match o
    case NameAsc => LexLeTransitive(a.name, b.name, c.name);
    case NameDesc => LexLeTransitive(c.name, b.name, a.name);
    case EmailAsc => LexLeTransitive(a.email, b.email, c.email);
    case EmailDesc => LexLeTransitive(c.email, b.email, a.email);
    case _ =>
  }

  ghost predicate Sorted(o: SortOrder, s: seq<Subscriber>) {
    forall i, j | 0 <= i < j < |s| :: Before(o, s[i], s[j])
  }

  ghost predicate DistinctIds(s: seq<Subscriber>) {
    forall i, j | 0 <= i < j < |s| :: s[i].id != s[j].id
  }

  /** Puts `x` into a listing before the first element it may precede. */
  function Insert(o: SortOrder, x: Subscriber, s: seq<Subscriber>): (r: seq<Subscriber>)
    ensures multiset(r) == multiset(s) + multiset{x}
  {
    if s == [] then [x]
    else if Before(o, x, s[0]) then [x] + s
    else
      assert s == [s[0]] + s[1..];
      [s[0]] + Insert(o, x, s[1..])
  }

  lemma InsertMembers(o: SortOrder, x: Subscriber, s: seq<Subscriber>)
    ensures forall y | y in Insert(o, x, s) :: y == x || y in s
  {
    var r := Insert(o, x, s);
    forall y | y in r ensures y == x || y in s {
      assert y in multiset(r);
    }
  }

  /** Inserting into a sorted listing leaves it sorted. */
  lemma {:induction false} InsertSorted(o: SortOrder, x: Subscriber, s: seq<Subscriber>)
    requires Sorted(o, s)
    ensures Sorted(o, Insert(o, x, s))
  {
    if s == [] {
    } else if Before(o, x, s[0]) {
      forall j | 0 < j < |s| ensures Before(o, x, s[j]) {
        BeforeTransitive(o, x, s[0], s[j]);
      }
    } else {
      BeforeTotal(o, x, s[0]);
      var rest := Insert(o, x, s[1..]);
      InsertSorted(o, x, s[1..]);
      InsertMembers(o, x, s[1..]);
      forall y | y in rest ensures Before(o, s[0], y) {
        if y != x {
          var k :| 0 <= k < |s[1..]| && s[1..][k] == y;
          assert s[k + 1] == y;
        }
      }
      var r := [s[0]] + rest;
      forall i, j | 0 <= i < j < |r| ensures Before(o, r[i], r[j]) {
        assert r[j] == rest[j - 1];
        if i > 0 { assert r[i] == rest[i - 1]; }
      }
    }
  }

  /** Inserting a subscriber whose id is new keeps the ids distinct. */
  lemma {:induction false} InsertDistinct(o: SortOrder, x: Subscriber, s: seq<Subscriber>)
    requires DistinctIds(s)
    requires forall y | y in s :: y.id != x.id
    ensures DistinctIds(Insert(o, x, s))
  {
    if s != [] && !Before(o, x, s[0]) {
      var rest := Insert(o, x, s[1..]);
      InsertDistinct(o, x, s[1..]);
      InsertMembers(o, x, s[1..]);
      forall y | y in rest ensures y.id != s[0].id {
        if y != x {
          var k :| 0 <= k < |s[1..]| && s[1..][k] == y;
          assert s[k + 1] == y;
        }
      }
      var r := [s[0]] + rest;
      forall i, j | 0 <= i < j < |r| ensures r[i].id != r[j].id {
        assert r[j] == rest[j - 1];
        if i > 0 { assert r[i] == rest[i - 1]; }
      }
    }
  }

  /** Insertion sort: a sorted permutation of `s`. */
  function SortBy(o: SortOrder, s: seq<Subscriber>): (r: seq<Subscriber>)
    ensures Sorted(o, r)
    ensures multiset(r) == multiset(s)
  {
    if s == [] then []
    else
      var rest := SortBy(o, s[1..]);
      InsertSorted(o, s[0], rest);
      assert s == [s[0]] + s[1..];
      Insert(o, s[0], rest)
  }

  /** Sorting never puts one subscriber in a listing twice. */
  lemma {:induction false} SortByDistinct(o: SortOrder, s: seq<Subscriber>)
    requires DistinctIds(s)
    ensures DistinctIds(SortBy(o, s))
  {
    if s != [] {
      var rest := SortBy(o, s[1..]);
      SortByDistinct(o, s[1..]);
      forall y | y in rest ensures y.id != s[0].id {
        assert y in multiset(rest);
        var k :| 0 <= k < |s[1..]| && s[1..][k] == y;
        assert s[k + 1] == y;
      }
      InsertDistinct(o, s[0], rest);
    }
  }

  /** A listing restricted to one newsletter keeps only its subscribers. */
  predicate Passes(filter: Option<Newsletter>, s: Subscriber) {
    filter.None? || s.flags.Get(filter.value)
  }

  /** The filter a `newsletter_filter` argument asks for; a missing, empty
      or unknown name asks for none. */
  function FilterOf(newsletterFilter: Option<string>): (r: Option<Newsletter>)
    ensures r.Some? <==> newsletterFilter.Some? && exists n: Newsletter :: Key(n) == newsletterFilter.value
    ensures r.Some? ==> Key(r.value) == newsletterFilter.value
  {
    if newsletterFilter.None? then None
    else
      var r := NewsletterNamed(newsletterFilter.value);
      assert r.Some? ==> Key(r.value) == newsletterFilter.value;
      r
  }

  class SubscriberStore {
    /** The table: every row under its own id. */
    var rows: map<int, Subscriber>
    /** The unique index on the email column. */
    var byEmail: map<string, int>
    /** The id the next inserted row receives; ids are never reused. */
    var nextId: int

    ghost predicate Valid()
      reads this
    {
      && 1 <= nextId
      && (forall id | id in rows ::
            && 1 <= id < nextId
            && rows[id].id == id
            && rows[id].email in byEmail
            && byEmail[rows[id].email] == id)
      && (forall e | e in byEmail :: byEmail[e] in rows && rows[byEmail[e]].email == e)
    }

    /** No two rows share an email. */
    lemma EmailsUnique(a: int, b: int)
      requires Valid()
      requires a in rows && b in rows && rows[a].email == rows[b].email
      ensures a == b
    {
    }

    /** Some row other than `id` holds `email`. */
    ghost predicate OwnedByOther(email: string, id: int)
      reads this
    {
      exists k | k in rows :: k != id && rows[k].email == email
    }

    constructor ()
      ensures Valid()
      ensures rows == map[] && nextId == 1
    {
      rows := map[];
      byEmail := map[];
      nextId := 1;
    }

    function FindById(id: int): (r: Option<Subscriber>)
      reads this
      requires Valid()
      ensures r.Some? <==> id in rows
      ensures r.Some? ==> r.value == rows[id] && r.value.id == id
    {
      if id in rows then Some(rows[id]) else None
    }

    /** The row holding `email`, found through the unique index. */
    function FindByEmail(email: string): (r: Option<Subscriber>)
      reads this
      requires Valid()
      ensures r.Some? ==> r.value.id in rows && rows[r.value.id] == r.value && r.value.email == email
      ensures r.None? ==> forall id | id in rows :: rows[id].email != email
    {
      if email in byEmail then
        var id := byEmail[email];
        assert rows[id].id == id;
        Some(rows[id])
      else None
    }

    function Exists(email: string): (r: bool)
      reads this
      requires Valid()
      ensures r <==> exists id | id in rows :: rows[id].email == email
      ensures r <==> FindByEmail(email).Some?
    {
      if email in byEmail then
        var id := byEmail[email];
        assert id in rows && rows[id].email == email;
        true
      else false
    }

    /** Inserts a new row under a fresh id; the unique index refuses an
        email that is already stored, and then nothing is written. */
    method Save(email: string, name: string, selections: Option<map<string, bool>>) returns (r: Option<Subscriber>)
      requires Valid()
      modifies this
      ensures Valid()
      ensures old(Exists(email)) ==> r.None? && unchanged(this)
      ensures !old(Exists(email)) ==>
        && r == Some(Subscriber(old(nextId), email, name, FlagsFrom(selections)))
        && old(nextId) !in old(rows)
        && rows == old(rows)[old(nextId) := r.value]
        && nextId == old(nextId) + 1
    {
      if email in byEmail {
        return None;
      }
      var s := Subscriber(nextId, email, name, FlagsFrom(selections));
      assert forall id | id in rows :: rows[id].email != email;
      rows := rows[nextId := s];
      byEmail := byEmail[email := nextId];
      nextId := nextId + 1;
      r := Some(s);
    }

    /** Rewrites the email, the name and, when selections are given, all five
        flags of an existing row; without selections the flags are kept. A
        missing id, or an email another row holds, writes nothing. */
    method Update(id: int, email: string, name: string, selections: Option<map<string, bool>>) returns (r: Option<Subscriber>)
      requires Valid()
      modifies this
      ensures Valid()
      ensures id !in old(rows) || old(OwnedByOther(email, id)) ==> r.None? && unchanged(this)
      ensures id in old(rows) && !old(OwnedByOther(email, id)) ==>
        && r == Some(Subscriber(id, email, name,
                       if selections.None? then old(rows)[id].flags else FlagsFrom(selections)))
        && rows == old(rows)[id := r.value]
        && nextId == old(nextId)
    {
      if id !in rows {
        return None;
      }
      if email in byEmail && byEmail[email] != id {
        return None;
      }
      var previous := rows[id];
      var flags := if selections.None? then previous.flags else FlagsFrom(selections);
      var s := Subscriber(id, email, name, flags);
      rows := rows[id := s];
      byEmail := (byEmail - {previous.email})[email := id];
      r := Some(s);
    }

    /** Removes a row; reports whether there was one. */
    method Delete(id: int) returns (deleted: bool)
      requires Valid()
      modifies this
      ensures Valid()
      ensures deleted == (id in old(rows))
      ensures rows == old(rows) - {id} && nextId == old(nextId)
    {
      if id !in rows {
        return false;
      }
      byEmail := byEmail - {rows[id].email};
      rows := rows - {id};
      deleted := true;
    }

    /** Applies the flag updates to every stored subscriber whose id is
        listed, skips ids that are not stored, and returns how many
        subscribers were updated. */
    method UpdateNewslettersBulk(ids: seq<int>, updates: map<string, Option<bool>>) returns (count: nat)
      requires Valid()
      modifies this
      ensures Valid()
      ensures count == |set id | id in ids && id in old(rows)|
      ensures rows.Keys == old(rows).Keys && nextId == old(nextId) && byEmail == old(byEmail)
      ensures forall id | id in rows ::
        rows[id] == if id in ids then Refreshed(old(rows)[id], updates) else old(rows)[id]
    {
      count := |Listed(ids, rows.Keys)|;
      rows := RefreshRows(rows, ids, updates);
    }

    /** The rows with ids from `lo` upward that pass the filter, in id order. */
    function Collect(lo: int, filter: Option<Newsletter>): (r: seq<Subscriber>)
      reads this
      requires Valid()
      decreases nextId - lo
      ensures forall x | x in r :: x.id in rows && rows[x.id] == x && lo <= x.id && Passes(filter, x)
      ensures forall id | id in rows && lo <= id && Passes(filter, rows[id]) :: rows[id] in r
      ensures forall i, j | 0 <= i < j < |r| :: r[i].id < r[j].id
    {
      if nextId <= lo then []
      else
        var rest := Collect(lo + 1, filter);
        if lo in rows && Passes(filter, rows[lo]) then [rows[lo]] + rest else rest
    }

    /** `get_all`: every stored subscriber that passes the filter, each once,
        sorted by the requested order. */
    function GetAll(sortBy: string, newsletterFilter: Option<string>): (r: seq<Subscriber>)
      reads this
      requires Valid()
      ensures forall x | x in r :: x.id in rows && rows[x.id] == x && Passes(FilterOf(newsletterFilter), x)
      ensures forall id | id in rows && Passes(FilterOf(newsletterFilter), rows[id]) :: rows[id] in r
      ensures DistinctIds(r)
      ensures Sorted(ParseSortOrder(sortBy), r)
    {
      var listed := Collect(1, FilterOf(newsletterFilter));
      var r := SortBy(ParseSortOrder(sortBy), listed);
      SortByDistinct(ParseSortOrder(sortBy), listed);
      assert forall x :: x in r <==> x in listed by {
        forall x ensures x in r <==> x in listed {
          assert x in r <==> x in multiset(r);
        }
      }
      r
    }
  }
}
