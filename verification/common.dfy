/** Shared vocabulary of the model: optional values (the source's nullable
    references), results of operations that may throw, the error kinds the
    services raise, and the id allocation of an auto-increment store. */
module Common {

  /** Primary keys of every entity (the source's `Integer` ids). */
  type Id = int

  /** A nullable value: `None` stands for Java's `null`. */
  datatype Option<+T> = None | Some(value: T) {
    function GetOr(default: T): T {
      match this
      case Some(v) => v
      case None => default
    }
  }

  /** The reasons a service call fails. Each one names a `RuntimeException`
      (or a database constraint violation) raised by the source. */
  datatype Error =
    | SystemNotFound | TableNotFound | FieldNotFound | RecordNotFound
    | UserNotFound | PlanNotFound | OwnerNotFound | InvitationNotFound
    | RelationshipNotFound
    | PermissionDenied          // "No tienes permisos ..." / owner-only checks
    | NotInSystem               // the entity does not belong to the given system
    | LimitReached              // plan or hard-coded limits
    | RelatedRecordNotFound     // a relation value names no record
    | WrongTargetTable          // ... or a record of another table
    | InvalidRelationValue      // the relation value is not an integer
    | RequiredFieldMissing
    | RelatedTableRequired
    | CascadeFailed             // a dependent record could not be deleted
    | CascadeTooDeep            // the recursion ran out of fuel (stack overflow in the source)
    | SelfInvitation | AlreadyMember | PendingExists | NotForYou
    | AlreadyProcessed | HasExpired | MustRegister | NotInviter | NotPending | InvalidRole
    | EmailInUse | WrongPassword | PasswordTooShort | InvalidPlan
    | NullValue                 // a NullPointerException in the source
    | UniqueViolation           // a unique constraint of the schema
    | NotNullViolation          // a NOT NULL column of the schema
    | NoData | UnsupportedFormat

  /** The outcome of an operation that returns a value or throws. */
  datatype Result<+T> = Ok(value: T) | Err(error: Error) {
    predicate IsFailure() {
      Err?
    }

    function PropagateFailure<U>(): Result<U>
      requires Err?
    {
      Err(error)
    }

    function Extract(): T
      requires Ok?
    {
      value
    }
  }

  /** The outcome of a check that returns nothing or throws. */
  datatype Outcome = Pass | Fail(error: Error) {
    predicate IsFailure() {
      Fail?
    }

    function PropagateFailure<U>(): Result<U>
      requires Fail?
    {
      Err(error)
    }
  }

  /** `Pass` when `condition` holds, otherwise the failure `e`. */
  function Need(condition: bool, e: Error): (r: Outcome)
    ensures r.Pass? <==> condition
    ensures r.Fail? ==> r.error == e
  {
    if condition then Pass else Fail(e)
  }

  /** A set is empty or has an element. */
  lemma EmptyOrInhabited(s: set<int>)
    ensures s == {} || exists x :: x in s
  {
    if forall x :: x !in s {
      assert s == {};
    }
  }

  /** `m` is at least every element of `s`. */
  predicate UpperBound(s: set<int>, m: int) {
    forall y :: y in s ==> y <= m
  }

  /** Every non-empty finite set of integers has a greatest element. */
  lemma MaxExists(s: set<int>)
    requires s != {}
    ensures exists m :: m in s && UpperBound(s, m)
    decreases |s|
  {
    EmptyOrInhabited(s);
    var x :| x in s;
    var rest := s - {x};
    if rest == {} {
      assert s == {x};
      assert UpperBound(s, x);
    } else {
      MaxExists(rest);
      var m :| m in rest && UpperBound(rest, m);
      var top := if x <= m then m else x;
      assert top in s;
      assert UpperBound(s, top) by {
        forall y | y in s
          ensures y <= top
        {
          if y != x {
            assert y in rest;
          }
        }
      }
    }
  }

  /** The greatest element of a non-empty set. */
  function MaxOf(s: set<int>): (r: int)
    requires s != {}
    ensures r in s
    ensures forall y :: y in s ==> y <= r
  {
    MaxExists(s);
    var m :| m in s && UpperBound(s, m);
    m
  }

  /** The id an IDENTITY column hands out next: one above every id in use. */
  function Fresh<V>(m: map<Id, V>): (r: Id)
    ensures r !in m
    ensures r >= 1
    ensures forall k :: k in m ==> k < r
  {
    if m.Keys == {} then 1
    else
      var top := MaxOf(m.Keys);
      if top < 1 then 1 else top + 1
  }

  /** Position `i` of `xs` holds a smaller value than position `j`. */
  predicate Below(xs: seq<int>, i: int, j: int) {
    0 <= i < |xs| && 0 <= j < |xs| && xs[i] < xs[j]
  }

  /** Strictly increasing sequences: the order of a listing by primary key.
      The comparison is named so that a proof states which pairs it needs. */
  predicate Increasing(xs: seq<int>) {
    forall i, j :: 0 <= i < j < |xs| ==> Below(xs, i, j)
  }

  /** The elements of `s` in ascending order, as a repository returns rows
      ordered by id. */
  function SortedKeys(s: set<int>): (r: seq<int>)
    ensures Increasing(r)
    ensures forall x :: x in s <==> x in r
    ensures |r| == |s|
    decreases |s|
  {
    if s == {} then []
    else
      var top := MaxOf(s);
      var rest := s - {top};
      assert |rest| == |s| - 1;
      var xs := SortedKeys(rest);
      var r := xs + [top];
      assert forall i, j :: 0 <= i < j < |r| ==> Below(r, i, j) by {
        forall i, j | 0 <= i < j < |r|
          ensures Below(r, i, j)
        {
          assert r[i] == xs[i] && r[i] in rest;
          if j < |xs| {
            assert Below(xs, i, j);
          }
        }
      }
      r
  }

  /** The least element of a non-empty set. */
  function MinOf(s: set<int>): (r: int)
    requires s != {}
    ensures r in s
    ensures forall y :: y in s ==> r <= y
  {
    var xs := SortedKeys(s);
    assert forall y :: y in s ==> xs[0] <= y by {
      forall y | y in s
        ensures xs[0] <= y
      {
        var j :| 0 <= j < |xs| && xs[j] == y;
        assert j == 0 || Below(xs, 0, j);
      }
    }
    xs[0]
  }

  /** Adding an id above every other one appends it to the ascending
      listing: a fresh row comes last in an ordered-by-id query. */
  lemma SortedKeysAddTop(s: set<int>, x: int)
    requires forall y :: y in s ==> y < x
    ensures SortedKeys(s + {x}) == SortedKeys(s) + [x]
  {
    var t := s + {x};
    assert MaxOf(t) == x;
    assert t - {x} == s;
  }

  /** A subset is no larger than its superset. */
  lemma SubsetSize(a: set<int>, b: set<int>)
    requires a <= b
    ensures |a| <= |b|
  {
    assert b == a + (b - a);
    assert a !! (b - a);
  }
}
