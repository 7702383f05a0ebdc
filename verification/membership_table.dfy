/** The `topicusers` table: one row per membership, with a unique
    constraint on the (topicid, userid) pair. */
module MembershipTable {
  import opened Wrappers
  import opened Memberships

  /** A row: the ids of the topic and of the member. */
  datatype Row = Row(topicId: int, userId: int)

  type Table = seq<Row>

  /** The database's refusal of a row that repeats an existing key. */
  datatype Violation = DuplicateKey(row: Row)

  /** The unique constraint: no two rows carry the same (topicid, userid) pair. */
  predicate Unique(t: Table) {
    forall i, j | 0 <= i < j < |t| :: t[i] != t[j]
  }

  /** The row a well-formed membership is stored as. */
  function RowOf<T, U>(m: TopicUsers<T, U>, topicId: T -> int, userId: U -> int): Row
    requires WellFormed(m)
  {
    Row(topicId(m.topic.value), userId(m.user.value))
  }

  /** Insert a row; the constraint rejects a key already present. */
  function Insert(t: Table, row: Row): (r: Result<Table, Violation>)
    ensures r.Success? <==> row !in t
    ensures r.Failure? ==> r.error == DuplicateKey(row)
    ensures r.Success? ==> |r.value| == |t| + 1 && r.value[..|t|] == t && r.value[|t|] == row
  {
    if row in t then Failure(DuplicateKey(row)) else Success(t + [row])
  }

  /** Delete every row with the given key, keeping the others in order. */
  function Remove(t: Table, row: Row): (r: Table)
    ensures row !in r
    ensures forall x | x != row :: x in r <==> x in t
    ensures |r| <= |t|
  {
    if |t| == 0 then []
    else if t[|t| - 1] == row then Remove(t[..|t| - 1], row)
    else Remove(t[..|t| - 1], row) + [t[|t| - 1]]
  }

  /** Every successful insert keeps the constraint. */
  lemma InsertKeepsUnique(t: Table, row: Row)
    requires Unique(t)
    requires Insert(t, row).Success?
    ensures Unique(Insert(t, row).value)
  {
  }

  lemma {:induction false} RemoveKeepsUnique(t: Table, row: Row)
    requires Unique(t)
    ensures Unique(Remove(t, row))
    decreases |t|
  {
    if |t| > 0 {
      var front := t[..|t| - 1];
      assert Unique(front);
      RemoveKeepsUnique(front, row);
      if t[|t| - 1] != row {
        var r := Remove(front, row);
        assert t[|t| - 1] !in front;
        assert t[|t| - 1] !in r;
      }
    }
  }

  /** Removing a key that is not there changes nothing. */
  lemma {:induction false} RemoveAbsent(t: Table, row: Row)
    requires row !in t
    ensures Remove(t, row) == t
    decreases |t|
  {
    if |t| > 0 {
      var front := t[..|t| - 1];
      assert row !in front;
      RemoveAbsent(front, row);
      assert front + [t[|t| - 1]] == t;
    }
  }

  /** Adding a membership and then deleting it restores the table. */
  lemma InsertThenRemove(t: Table, row: Row)
    requires Insert(t, row).Success?
    ensures Remove(Insert(t, row).value, row) == t
  {
    var t' := Insert(t, row).value;
    assert t'[..|t'| - 1] == t;
    RemoveAbsent(t, row);
  }

  /** The rows of a table, as a set. */
  function Keys(t: Table): set<Row> {
    set i | 0 <= i < |t| :: t[i]
  }

  /** Under the constraint the table holds exactly as many rows as distinct keys. */
  lemma {:induction false} UniqueRowCount(t: Table)
    requires Unique(t)
    ensures |Keys(t)| == |t|
    decreases |t|
  {
    if |t| > 0 {
      var front := t[..|t| - 1];
      var last := t[|t| - 1];
      UniqueRowCount(front);
      assert last !in Keys(front);
      assert Keys(t) == Keys(front) + {last};
    }
  }

  /** When Topic and User compare by id, two distinct well-formed memberships
      are equal exactly when they would occupy the same row: the unique
      constraint and `equals` agree on what a duplicate is. */
  lemma EqualsIffSameRow<T, U>(a: TopicUsers<T, U>, b: TopicUsers<T, U>,
                              eqT: (T, T) -> bool, eqU: (U, U) -> bool,
                              topicId: T -> int, userId: U -> int)
    requires forall x, y :: eqT(x, y) <==> topicId(x) == topicId(y)
    requires forall x, y :: eqU(x, y) <==> userId(x) == userId(y)
    requires WellFormed(a) && WellFormed(b)
    requires a.addr != b.addr
    ensures Equals(a, Membership(b), eqT, eqU) == Returns(RowOf(a, topicId, userId) == RowOf(b, topicId, userId))
  {
    EqualsIsStructural(a, b, eqT, eqU);
  }
}
