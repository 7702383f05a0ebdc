/** `TopicUsers`: the association object recording that a user is a member of
    a topic. Java object identity, nullable fields, and the `equals` and
    `hashCode` of the referenced Topic and User objects are made explicit:
    the latter two are parameters, since those classes are not part of this model. */
module Memberships {
  import opened Wrappers
  import opened JavaInt

  /** A TopicUsers object: where it lives on the heap (what `==` compares)
      and its two fields, each of which may be null. */
  datatype TopicUsers<T, U> = TopicUsers(addr: nat, topic: Option<T>, user: Option<U>)

  /** Any argument `equals` may receive: null, a TopicUsers object, or an
      object of some other class. */
  datatype Object<T, U> = NullObject | Membership(m: TopicUsers<T, U>) | OtherClass(addr: nat)

  /** What a call of `equals` does: return a boolean or throw. */
  datatype Outcome = Returns(value: bool) | NullPointerThrown

  /** Both fields are set, as every constructor-built membership of the
      application has them. */
  predicate WellFormed<T, U>(m: TopicUsers<T, U>) {
    m.topic.Some? && m.user.Some?
  }

  /** Two views of the heap agree: objects at the same address are the same object. */
  ghost predicate SameObjectSameState<T, U>(a: TopicUsers<T, U>, b: TopicUsers<T, U>) {
    a.addr == b.addr ==> a == b
  }

  // ---- Properties of the component classes' equals and hashCode ----

  ghost predicate Reflexive<T(!new)>(eq: (T, T) -> bool) {
    forall x :: eq(x, x)
  }

  ghost predicate Symmetric<T(!new)>(eq: (T, T) -> bool) {
    forall x, y :: eq(x, y) ==> eq(y, x)
  }

  ghost predicate Transitive<T(!new)>(eq: (T, T) -> bool) {
    forall x, y, z :: eq(x, y) && eq(y, z) ==> eq(x, z)
  }

  ghost predicate Equivalence<T(!new)>(eq: (T, T) -> bool) {
    Reflexive(eq) && Symmetric(eq) && Transitive(eq)
  }

  /** Java's contract between `hashCode` and `equals`: equal objects hash alike. */
  ghost predicate HashRespects<T(!new)>(eq: (T, T) -> bool, hash: T -> Int32) {
    forall x, y :: eq(x, y) ==> hash(x) == hash(y)
  }

  // ---- Constructor, getters and setters ----

  function GetTopic<T, U>(m: TopicUsers<T, U>): Option<T> {
    m.topic
  }

  function GetUser<T, U>(m: TopicUsers<T, U>): Option<U> {
    m.user
  }

  /** `new TopicUsers(topic, user)`, allocated at `addr`. */
  function New<T, U>(addr: nat, topic: Option<T>, user: Option<U>): (m: TopicUsers<T, U>)
    ensures m.addr == addr
    ensures GetTopic(m) == topic && GetUser(m) == user
  {
    TopicUsers(addr, topic, user)
  }

  /** `setTopic`: only the topic changes. */
  function SetTopic<T, U>(m: TopicUsers<T, U>, topic: Option<T>): (r: TopicUsers<T, U>)
    ensures GetTopic(r) == topic
    ensures GetUser(r) == GetUser(m) && r.addr == m.addr
  {
    m.(topic := topic)
  }

  /** `setUser`: only the user changes. */
  function SetUser<T, U>(m: TopicUsers<T, U>, user: Option<U>): (r: TopicUsers<T, U>)
    ensures GetUser(r) == user
    ensures GetTopic(r) == GetTopic(m) && r.addr == m.addr
  {
    m.(user := user)
  }

  // ---- equals ----

  /** `equals(o)` with `eqT` and `eqU` the `equals` of Topic and User (which,
      by Java's contract, answer false for a null argument). The identity
      test comes first; then null and foreign classes are refused; then the
      topics and, only if they match, the users are compared. A null field of
      the receiver is dereferenced and throws. */
  function Equals<T, U>(self: TopicUsers<T, U>, o: Object<T, U>, eqT: (T, T) -> bool, eqU: (U, U) -> bool): Outcome {
    match o
    case NullObject => Returns(false)
    case OtherClass(_) => Returns(false)
    case Membership(that) =>
      if that.addr == self.addr then Returns(true)
      else if self.topic.None? then NullPointerThrown
      else if that.topic.None? || !eqT(self.topic.value, that.topic.value) then Returns(false)
      else if self.user.None? then NullPointerThrown
      else Returns(that.user.Some? && eqU(self.user.value, that.user.value))
  }

  /** The same object is equal to itself; null and objects of other classes never are. */
  lemma EqualsIdentityAndClass<T, U>(a: TopicUsers<T, U>, addr: nat, eqT: (T, T) -> bool, eqU: (U, U) -> bool)
    ensures Equals(a, Membership(a), eqT, eqU) == Returns(true)
    ensures Equals(a, NullObject, eqT, eqU) == Returns(false)
    ensures Equals(a, OtherClass(addr), eqT, eqU) == Returns(false)
  {
  }

  /** Two distinct memberships with their fields set are equal exactly when
      their topics are equal and their users are equal. */
  lemma EqualsIsStructural<T, U>(a: TopicUsers<T, U>, b: TopicUsers<T, U>, eqT: (T, T) -> bool, eqU: (U, U) -> bool)
    requires WellFormed(a) && WellFormed(b)
    requires a.addr != b.addr
    ensures Equals(a, Membership(b), eqT, eqU)
      == Returns(eqT(a.topic.value, b.topic.value) && eqU(a.user.value, b.user.value))
  {
  }

  /** A membership whose topic was never set throws when compared with
      another membership, while the other one answers false: `equals` is
      only symmetric on well-formed memberships. */
  lemma EqualsOnUnsetTopic<T, U>(a: TopicUsers<T, U>, b: TopicUsers<T, U>, eqT: (T, T) -> bool, eqU: (U, U) -> bool)
    requires a.topic.None? && WellFormed(b)
    requires a.addr != b.addr
    ensures Equals(a, Membership(b), eqT, eqU) == NullPointerThrown
    ensures Equals(b, Membership(a), eqT, eqU) == Returns(false)
  {
  }

  lemma EqualsSymmetric<T(!new), U(!new)>(a: TopicUsers<T, U>, b: TopicUsers<T, U>, eqT: (T, T) -> bool, eqU: (U, U) -> bool)
    requires Symmetric(eqT) && Symmetric(eqU)
    requires WellFormed(a) && WellFormed(b)
    ensures Equals(a, Membership(b), eqT, eqU) == Equals(b, Membership(a), eqT, eqU)
  {
  }

  lemma EqualsTransitive<T(!new), U(!new)>(a: TopicUsers<T, U>, b: TopicUsers<T, U>, c: TopicUsers<T, U>, eqT: (T, T) -> bool, eqU: (U, U) -> bool)
    requires Equivalence(eqT) && Equivalence(eqU)
    requires SameObjectSameState(a, b) && SameObjectSameState(b, c) && SameObjectSameState(a, c)
    requires Equals(a, Membership(b), eqT, eqU) == Returns(true)
    requires Equals(b, Membership(c), eqT, eqU) == Returns(true)
    ensures Equals(a, Membership(c), eqT, eqU) == Returns(true)
  {
  }

  // ---- hashCode ----

  /** The hash Java uses for a possibly null element: 0 for null. */
  function HashOf<T>(x: Option<T>, hash: T -> Int32): Int32 {
    match x
    case None => 0
    case Some(v) => hash(v)
  }

  /** `Arrays.hashCode`: start from 1 and fold `31 * h + e` over the
      elements, in 32-bit arithmetic. */
  function ArraysHashCode(hs: seq<Int32>): Int32 {
    if |hs| == 0 then 1 else Wrap(31 * ArraysHashCode(hs[..|hs| - 1]) + hs[|hs| - 1])
  }

  /** The same polynomial in exact arithmetic. */
  function Polynomial(hs: seq<int>): int {
    if |hs| == 0 then 1 else 31 * Polynomial(hs[..|hs| - 1]) + hs[|hs| - 1]
  }

  /** Wrapping at every step gives the exact polynomial reduced modulo 2^32. */
  lemma {:induction false} ArraysHashCodeIsPolynomial(hs: seq<Int32>)
    ensures ArraysHashCode(hs) == Wrap(Polynomial(hs))
  {
    if |hs| == 0 {
      assert Wrap(1) == 1;
    } else {
      var front := hs[..|hs| - 1];
      ArraysHashCodeIsPolynomial(front);
      WrapStep(Polynomial(front), hs[|hs| - 1]);
    }
  }

  /** `hashCode`: `Objects.hash(getTopic(), getUser())`. */
  function HashCode<T, U>(m: TopicUsers<T, U>, hashT: T -> Int32, hashU: U -> Int32): Int32 {
    ArraysHashCode([HashOf(m.topic, hashT), HashOf(m.user, hashU)])
  }

  /** The hash in closed form: it is determined by the topic's and the
      user's hashes alone, not by the object's identity. */
  lemma HashCodeClosedForm<T, U>(m: TopicUsers<T, U>, hashT: T -> Int32, hashU: U -> Int32)
    ensures HashCode(m, hashT, hashU) == Wrap(961 + 31 * HashOf(m.topic, hashT) + HashOf(m.user, hashU))
  {
    var hs: seq<Int32> := [HashOf(m.topic, hashT), HashOf(m.user, hashU)];
    ArraysHashCodeIsPolynomial(hs);
    var xs: seq<int> := hs;
    assert xs[..1][..0] == [];
    assert Polynomial(xs[..1]) == 31 + xs[0];
    assert Polynomial(xs) == 961 + 31 * xs[0] + xs[1];
  }

  /** Equal memberships have equal hashes, given that Topic's and User's
      hashes agree with their own `equals`. */
  lemma EqualsImpliesSameHash<T(!new), U(!new)>(a: TopicUsers<T, U>, b: TopicUsers<T, U>,
                                    eqT: (T, T) -> bool, eqU: (U, U) -> bool,
                                    hashT: T -> Int32, hashU: U -> Int32)
    requires HashRespects(eqT, hashT) && HashRespects(eqU, hashU)
    requires SameObjectSameState(a, b)
    requires Equals(a, Membership(b), eqT, eqU) == Returns(true)
    ensures HashCode(a, hashT, hashU) == HashCode(b, hashT, hashU)
  {
    if a.addr != b.addr {
      assert HashOf(a.topic, hashT) == HashOf(b.topic, hashT);
      assert HashOf(a.user, hashU) == HashOf(b.user, hashU);
    }
  }
}
