/**
  The domain scaffold of the polls application: value objects, entity
  identities, entities compared by identity, and root entities that carry a
  version marker kept out of equality.

  Python's equality and hashing protocol is modelled as pure functions that
  either produce a value or raise an exception; the exceptions that the
  protocol can raise here are `NotImplementedError` (from the base
  `ValueObject`) and `AttributeError` (from an entity whose `entity_id`
  attribute was never assigned).
 */
module Repository {

  datatype PyError = NotImplementedError | AttributeError

  /** The outcome of a Python call: a value, or a raised exception. */
  datatype Result<T> = Ok(value: T) | Raise(error: PyError)

  /**
    A value that can be stored in an entity's `entity_id` attribute.
    - NoneId: Python's `None`, the constructor's default.
    - BareIdentity: an instance of `ValueObject` or `EntityIdentity` (or of a
      subclass) that keeps the base class's `__eq__` and `__hash__`.
    - KeyIdentity: a concrete identity that overrides both and compares and
      hashes structurally, by the state `key` (an integer or string key, say).
   */
  datatype IdValue<K> = NoneId | BareIdentity | KeyIdentity(key: K)

  /** An instance attribute: never assigned, or assigned a value. */
  datatype Attribute<T> = Missing | Assigned(value: T)

  /**
    How the concrete identities and `None` hash. Python fixes `hash(None)`
    for the life of the process; the hash of a concrete identity is whatever
    its class defines, and is consistent with its structural equality
    because it is a function of `key`.
   */
  datatype Hasher<!K> = Hasher(noneHash: int, keyHash: K -> int)

  /**
    An entity object. `cls` names its concrete class. Python compares classes
    by identity, not by name; the model assumes that each name identifies one
    class, so that two distinct classes never share a name. The two variants
    tell apart classes derived from `RootEntity`, which carry `version_id`,
    from the other subclasses of `Entity`; a class is one or the other, so the
    pair (name, rootedness) is the class.
   */
  datatype Entity<K> =
    | PlainEntity(cls: string, entityId: Attribute<IdValue<K>>)
    | RootEntity(cls: string, entityId: Attribute<IdValue<K>>, versionId: int)

  /** The concrete runtime class of an entity, `type(e)`. */
  datatype EntityClass = EntityClass(name: string, rooted: bool)

  function ClassOf<K>(e: Entity<K>): EntityClass
  {
    EntityClass(e.cls, e.RootEntity?)
  }

  /** The right-hand operand of `==`: an entity, or an object of some other class. */
  datatype Operand<K> = AnEntity(entity: Entity<K>) | NonEntity

  /** The identity value compares without raising: it is `None` or a concrete identity. */
  predicate Comparable<K>(v: IdValue<K>)
  {
    !v.BareIdentity?
  }

  // ---------------------------------------------------------------------
  // ValueObject / EntityIdentity

  /**
    `a == b` on identity values. Whichever side is a bare value object, the
    call reaches `ValueObject.__eq__` (directly, or as the reflected
    operation once the other side declines), which raises. Otherwise `None`
    equals only `None`, and concrete identities compare by key.
   */
  function IdEquals<K(==)>(a: IdValue<K>, b: IdValue<K>): (r: Result<bool>)
    ensures r.Raise? <==> a.BareIdentity? || b.BareIdentity?
    ensures r.Raise? ==> r.error == NotImplementedError
    ensures r == Ok(true) ==> a == b
    ensures a == b && Comparable(a) ==> r == Ok(true)
  {
    if !Comparable(a) || !Comparable(b) then Raise(NotImplementedError)
    else Ok(a == b)
  }

  /** `hash(v)` on an identity value; the bare `ValueObject.__hash__` raises. */
  function IdHash<K>(v: IdValue<K>, h: Hasher<K>): (r: Result<int>)
    ensures r.Ok? <==> Comparable(v)
    ensures r.Raise? ==> r.error == NotImplementedError
    ensures v == NoneId ==> r == Ok(h.noneHash)
    ensures v.KeyIdentity? ==> r == Ok(h.keyHash(v.key))
  {
    match v
    case NoneId => Ok(h.noneHash)
    case BareIdentity => Raise(NotImplementedError)
    case KeyIdentity(k) => Ok(h.keyHash(k))
  }

  // ---------------------------------------------------------------------
  // Entity and RootEntity

  /**
    `Entity.__init__` for a class not derived from `RootEntity`: it assigns
    `entity_id`, which defaults to `None`.
   */
  function NewEntity<K>(cls: string, entityId: IdValue<K> := NoneId): (e: Entity<K>)
    ensures e.PlainEntity? && e.cls == cls
    ensures e.entityId == Assigned(entityId)
  {
    PlainEntity(cls, Assigned(entityId))
  }

  /**
    The `__init__` that attrs generates for `RootEntity`: it accepts only the
    keyword `version_id`, defaulting to 0, and does not call
    `Entity.__init__`, so `entity_id` is left unassigned.
   */
  function NewRootEntity<K>(cls: string, versionId: int := 0): (e: Entity<K>)
    ensures e.RootEntity? && e.cls == cls
    ensures e.versionId == versionId
    ensures e.entityId.Missing?
  {
    RootEntity(cls, Missing, versionId)
  }

  /**
    `Entity.__eq__(self, other)`: false unless `type(other)` is exactly the
    class of `self`; otherwise the comparison of the two `entity_id`
    attributes, which raises `AttributeError` when either is unassigned.
   */
  function Equals<K(==)>(self: Entity<K>, other: Operand<K>): (r: Result<bool>)
    ensures other.NonEntity? ==> r == Ok(false)
    ensures other.AnEntity? && ClassOf(other.entity) != ClassOf(self) ==> r == Ok(false)
    ensures r.Raise? ==> other.AnEntity? && ClassOf(other.entity) == ClassOf(self)
    ensures r == Ok(true) <==>
              && other.AnEntity? && ClassOf(other.entity) == ClassOf(self)
              && self.entityId.Assigned? && Comparable(self.entityId.value)
              && self.entityId == other.entity.entityId
  {
    match other
    case NonEntity => Ok(false)
    case AnEntity(o) =>
      if ClassOf(o) != ClassOf(self) then Ok(false)
      else if self.entityId.Missing? || o.entityId.Missing? then Raise(AttributeError)
      else IdEquals(self.entityId.value, o.entityId.value)
  }

  /** `Entity.__hash__(self)`: the hash of `entity_id` and of nothing else. */
  function Hash<K>(self: Entity<K>, h: Hasher<K>): (r: Result<int>)
    ensures r.Ok? <==> self.entityId.Assigned? && Comparable(self.entityId.value)
    ensures self.entityId.Missing? ==> r == Raise(AttributeError)
    ensures self.entityId == Assigned(BareIdentity) ==> r == Raise(NotImplementedError)
    ensures self.entityId == Assigned(NoneId) ==> r == Ok(h.noneHash)
  {
    match self.entityId
    case Missing => Raise(AttributeError)
    case Assigned(v) => IdHash(v, h)
  }

  // ---------------------------------------------------------------------
  // Properties of identity equality

  /**
    Two entities are equal exactly when their classes and their (comparable)
    identities coincide: the named form, for two entities, of the last
    postcondition of `Equals`.
   */
  lemma EqualsExactly<K>(a: Entity<K>, b: Entity<K>)
    ensures Equals(a, AnEntity(b)) == Ok(true) <==>
              && ClassOf(a) == ClassOf(b)
              && a.entityId.Assigned? && Comparable(a.entityId.value)
              && a.entityId == b.entityId
  {
  }

  /**
    An entity never equals an object of another class: not a non-entity, not an
    entity of a subclass or base class, whatever the identities.
   */
  lemma NeverEqualAcrossClasses<K>(a: Entity<K>, b: Entity<K>)
    requires ClassOf(a) != ClassOf(b)
    ensures Equals(a, AnEntity(b)) == Ok(false)
    ensures Equals(a, NonEntity) == Ok(false)
  {
  }

  lemma EqualsReflexive<K>(a: Entity<K>)
    requires a.entityId.Assigned? && Comparable(a.entityId.value)
    ensures Equals(a, AnEntity(a)) == Ok(true)
  {
  }

  /** For two entities, comparing in either order gives the same outcome, an exception included. */
  lemma EqualsSymmetric<K>(a: Entity<K>, b: Entity<K>)
    ensures Equals(a, AnEntity(b)) == Equals(b, AnEntity(a))
  {
  }

  lemma EqualsTransitive<K>(a: Entity<K>, b: Entity<K>, c: Entity<K>)
    requires Equals(a, AnEntity(b)) == Ok(true) && Equals(b, AnEntity(c)) == Ok(true)
    ensures Equals(a, AnEntity(c)) == Ok(true)
  {
  }

  /** Equal entities hash, without raising, to the same value, for every hashing of the identities. */
  lemma HashAgreesWithEquals<K>(a: Entity<K>, b: Entity<K>, h: Hasher<K>)
    requires Equals(a, AnEntity(b)) == Ok(true)
    ensures Hash(a, h).Ok? && Hash(a, h) == Hash(b, h)
  {
  }

  /**
    The hash depends on `entity_id` alone: entities holding the same
    `entity_id` hash alike whatever their classes, so an entity of a subclass
    and one of its base class with one id are unequal yet hash alike.
   */
  lemma HashOfIdAlone<K>(a: Entity<K>, b: Entity<K>, h: Hasher<K>)
    requires a.entityId == b.entityId
    ensures Hash(a, h) == Hash(b, h)
  {
  }

  /**
    `version_id` takes no part in equality or hashing: changing it changes
    neither side of any comparison, nor the hash.
   */
  lemma VersionIgnored<K>(a: Entity<K>, v: int, o: Entity<K>, h: Hasher<K>)
    requires a.RootEntity?
    ensures Equals(a.(versionId := v), AnEntity(o)) == Equals(a, AnEntity(o))
    ensures Equals(o, AnEntity(a.(versionId := v))) == Equals(o, AnEntity(a))
    ensures Hash(a.(versionId := v), h) == Hash(a, h)
  {
  }

  /** Two root entities of one class with one identity and different versions are equal, and hash alike. */
  lemma RootEntitiesEqualAcrossVersions<K>(cls: string, id: IdValue<K>, v1: int, v2: int, h: Hasher<K>)
    requires Comparable(id)
    ensures Equals(RootEntity(cls, Assigned(id), v1), AnEntity(RootEntity(cls, Assigned(id), v2))) == Ok(true)
    ensures Hash(RootEntity(cls, Assigned(id), v1), h) == Hash(RootEntity(cls, Assigned(id), v2), h)
  {
  }

  /** Entities of one class built without an identity hold `None` and compare equal. */
  lemma IdLessEntitiesEqual<K>(cls: string, h: Hasher<K>)
    ensures NewEntity<K>(cls).entityId == Assigned(NoneId)
    ensures Equals(NewEntity<K>(cls), AnEntity(NewEntity<K>(cls))) == Ok(true)
    ensures Hash(NewEntity<K>(cls), h) == Ok(h.noneHash)
  {
  }

  /** Entities with different concrete identities are not equal. */
  lemma DifferentKeysNotEqual<K>(cls: string, k1: K, k2: K)
    requires k1 != k2
    ensures Equals(NewEntity(cls, KeyIdentity(k1)), AnEntity(NewEntity(cls, KeyIdentity(k2)))) == Ok(false)
  {
  }

  /**
    A root entity straight from its generated constructor has no `entity_id`:
    comparing it with a root entity of its own class, or hashing it, raises
    `AttributeError`, whatever the versions.
   */
  lemma FreshRootEntitiesCannotCompare<K>(cls: string, v1: int, v2: int, h: Hasher<K>)
    ensures Equals(NewRootEntity<K>(cls, v1), AnEntity(NewRootEntity<K>(cls, v2))) == Raise(AttributeError)
    ensures Hash(NewRootEntity<K>(cls, v1), h) == Raise(AttributeError)
  {
  }

  /**
    Comparing or hashing a bare value object raises `NotImplementedError`,
    whatever identity value it is compared with: the named form of the first
    postconditions of `IdEquals` and `IdHash`.
   */
  lemma BareValueObjectRaises<K>(other: IdValue<K>, h: Hasher<K>)
    ensures IdEquals(BareIdentity, other) == Raise(NotImplementedError)
    ensures IdEquals(other, BareIdentity) == Raise(NotImplementedError)
    ensures IdHash(BareIdentity, h) == Raise(NotImplementedError)
  {
  }

  /** So does comparing or hashing an entity whose identity is a bare value object. */
  lemma BareIdentityEntityRaises<K>(a: Entity<K>, b: Entity<K>, h: Hasher<K>)
    requires ClassOf(a) == ClassOf(b)
    requires a.entityId == Assigned(BareIdentity) && b.entityId.Assigned?
    ensures Equals(a, AnEntity(b)) == Raise(NotImplementedError)
    ensures Equals(b, AnEntity(a)) == Raise(NotImplementedError)
    ensures Hash(a, h) == Raise(NotImplementedError)
  {
  }
}
