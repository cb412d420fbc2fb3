/** The account store (`UsuarioRepository`) as an immutable value: the stored
    rows by id, and the next id its identity sequence will hand out. */
module Repository {
  import opened Wrappers
  import opened Model

  datatype Store = Store(rows: map<int, Usuario>, nextId: int)

  /** Every stored row carries its own key as id, and every key is below the
      next id the sequence hands out. */
  ghost predicate IdsAssigned(s: Store)
  {
    forall k :: k in s.rows ==> k < s.nextId && s.rows[k].id == Some(k)
  }

  /** No two stored rows share an email. */
  ghost predicate UniqueEmails(rows: map<int, Usuario>)
  {
    forall j, k :: j in rows && k in rows && rows[j].email == rows[k].email ==> j == k
  }

  /** The store invariant kept by the service's operations. */
  ghost predicate Valid(s: Store)
  {
    IdsAssigned(s) && UniqueEmails(s.rows)
  }

  /** Some stored row has exactly the email `e`. */
  ghost predicate HasEmail(rows: map<int, Usuario>, e: string)
  {
    exists k :: k in rows && rows[k].email == e
  }

  /** A store with no rows, whose sequence starts at 1. */
  function EmptyStore(): (s: Store)
    ensures Valid(s)
    ensures forall e :: !HasEmail(s.rows, e)
  {
    Store(map[], 1)
  }

  /** Every non-empty finite set of integers has a least element. */
  lemma {:induction false} LeastExists(keys: set<int>)
    requires keys != {}
    ensures exists m :: m in keys && forall k :: k in keys ==> m <= k
  {
    // A set without elements is the empty set, so `keys` has one.
    assert (forall y :: y !in keys) ==> keys == {};
    var x :| x in keys;
    if keys != {x} {
      var rest := keys - {x};
      LeastExists(rest);
      var m :| m in rest && forall k :: k in rest ==> m <= k;
      assert forall k :: k in keys ==> k == x || k in rest;
      if x < m {
        assert forall k :: k in keys ==> x <= k;
      } else {
        assert forall k :: k in keys ==> m <= k;
      }
    }
  }

  /** The least element of a non-empty set of ids. */
  function Least(keys: set<int>): (m: int)
    requires keys != {}
    ensures m in keys
    ensures forall k :: k in keys ==> m <= k
  {
    LeastExists(keys);
    var m :| m in keys && forall k :: k in keys ==> m <= k;
    m
  }

  /** `findById`: the row stored under `id`, or empty. */
  function FindById(s: Store, id: int): (r: Option<Usuario>)
  {
    if id in s.rows then Some(s.rows[id]) else None
  }

  /** `findByEmail`: a row whose email is exactly `e`, or empty when none is.
      Should several rows share the email, the one with the least id is
      returned; a store satisfying `UniqueEmails` never has several. */
  function FindByEmail(s: Store, e: string): (r: Option<Usuario>)
    ensures r.Some? <==> HasEmail(s.rows, e)
    ensures r.Some? ==> r.value.email == e && r.value in s.rows.Values
    ensures UniqueEmails(s.rows) ==>
      forall k :: k in s.rows && s.rows[k].email == e ==> r == Some(s.rows[k])
  {
    var keys := set k | k in s.rows && s.rows[k].email == e;
    assert forall k :: k in s.rows && s.rows[k].email == e ==> k in keys;
    if keys == {} then None else Some(s.rows[Least(keys)])
  }

  /** `save` of a new row (one without an id): the row is inserted under the
      next id of the sequence and returned carrying that id. */
  function Save(s: Store, u: Usuario): (r: (Usuario, Store))
    requires u.id.None?
    ensures r.0 == u.(id := Some(s.nextId))
    ensures Valid(s) ==> s.nextId !in s.rows
    ensures r.1.rows.Keys == s.rows.Keys + {s.nextId}
    ensures r.1.rows[s.nextId] == r.0
    ensures forall k :: k in s.rows && k != s.nextId ==> r.1.rows[k] == s.rows[k]
    ensures r.1.nextId > s.nextId
  {
    var saved := u.(id := Some(s.nextId));
    (saved, Store(s.rows[s.nextId := saved], s.nextId + 1))
  }
}
