# Polls: identity-based entities and the poll views

A Dafny model of the two pieces of logic in the `crud_django_app` polls
application.

**Repository (`repository.dfy`).** This module covers the domain scaffold in
`polls/domain/repository/repository.py`:

- A `ValueObject` or `EntityIdentity` that keeps the base `__eq__` and
  `__hash__` raises `NotImplementedError` when compared or hashed.
- An `Entity` equals another object only when that object has exactly the same
  concrete class and an equal `entity_id`.
- An entity's hash is the hash of its `entity_id` and nothing else.
- A `RootEntity` also carries a `version_id` that takes no part in equality or
  hashing.

Python's equality protocol becomes pure functions that return `Ok(value)` or
`Raise(error)`. An entity is a datatype value holding three things: its class,
its `entity_id` attribute (which may never have been assigned), and, for
classes derived from `RootEntity`, its version. The
hash of `None` and of a concrete identity is supplied as a `Hasher`
parameter. The concrete identity classes are not shown, and the properties
hold for every such hashing. `RootEntity`'s constructor is the one attrs
generates from the `version_id = attr.ib(..., default=0, kw_only=True)`
declaration: it takes only `version_id` and does not chain to
`Entity.__init__`. So a freshly built root entity has no `entity_id`
attribute, and comparing it with another root entity of its class, or hashing
it, raises `AttributeError` (`FreshRootEntitiesCannotCompare`).

**Polls (`polls.dfy`).** This module covers `polls/views.py` with HTTP and the
ORM removed. A table is a sequence of rows, and "now" is an integer passed in.

- `Index` is `IndexView.get_queryset`: it keeps questions with
  `pub_date <= now`, orders them newest first and keeps at most five.
- `Detail` is the lookup `DetailView` makes through its `get_queryset`: only
  published questions are found.
- `PollStore.Vote` is `vote`. It looks up the question by primary key,
  published or not. It then reads the submitted `choice` field and looks for
  that choice among the question's own choices. Either that choice's `votes`
  goes up by one, or an error outcome is returned and no row changes. The
  submitted field is absent, a number, or text the ORM rejects with a
  `ValueError` that `vote` does not catch.

## Model

| member | source | states |
|---|---|---|
| `Repository.IdEquals` | crud_django_app/polls/domain/repository/repository.py:7-16 | the definition of `==` on identity values: it raises `NotImplementedError` exactly when either side is a bare value object (whose `__eq__` at lines 8-9 raises); otherwise `None` equals only `None` and concrete identities compare by key; properties in `BareValueObjectRaises` |
| `Repository.IdHash` | crud_django_app/polls/domain/repository/repository.py:11-16 | the definition of `hash` on identity values: it succeeds exactly when the value is not a bare value object (whose `__hash__` raises `NotImplementedError`), `None` hashes to `hash(None)` and a concrete identity to its key's hash; properties in `BareValueObjectRaises` |
| `Repository.Equals` | crud_django_app/polls/domain/repository/repository.py:24-27 | the definition of `Entity.__eq__`: `False` for a non-entity or another class, an exception only for same-class operands, `True` exactly for same class and an equal assigned comparable `entity_id`; properties in `EqualsExactly`, `NeverEqualAcrossClasses`, `EqualsReflexive`, `EqualsSymmetric`, `EqualsTransitive` |
| `Repository.Hash` | crud_django_app/polls/domain/repository/repository.py:29-30 | the definition of `Entity.__hash__`, the hash of `entity_id`: it succeeds exactly when `entity_id` is assigned and not a bare value object, raises `AttributeError` when unassigned, `NotImplementedError` for a bare identity; properties in `HashOfIdAlone`, `HashAgreesWithEquals`, `VersionIgnored` |
| `Repository.EqualsExactly` | crud_django_app/polls/domain/repository/repository.py:24-27 | an entity equals another exactly when the concrete classes coincide and both hold the same assigned, comparable `entity_id` (both directions) |
| `Repository.NeverEqualAcrossClasses` | crud_django_app/polls/domain/repository/repository.py:25-27 | an entity is never equal to a non-entity, or to an entity of another class (subclass or base class) even when the ids match; the result is `False`, not an exception |
| `Repository.EqualsReflexive` | crud_django_app/polls/domain/repository/repository.py:24-27 | an entity whose `entity_id` is `None` or a concrete identity equals itself |
| `Repository.EqualsSymmetric` | crud_django_app/polls/domain/repository/repository.py:24-27 | for two entities, comparing in either order gives the same outcome, raised exceptions included |
| `Repository.EqualsTransitive` | crud_django_app/polls/domain/repository/repository.py:24-27 | entity equality is transitive |
| `Repository.HashAgreesWithEquals` | crud_django_app/polls/domain/repository/repository.py:24-30 | equal entities hash without raising, and to the same value, for any hashing of the identities |
| `Repository.HashOfIdAlone` | crud_django_app/polls/domain/repository/repository.py:29-30 | entities holding the same `entity_id` hash alike whatever their classes (and versions): hash depends on `entity_id` alone, so a subclass and a base-class entity with one id hash alike though unequal |
| `Repository.VersionIgnored` | crud_django_app/polls/domain/repository/repository.py:33-35 | changing a root entity's `version_id` changes neither side of any comparison, nor its hash |
| `Repository.RootEntitiesEqualAcrossVersions` | crud_django_app/polls/domain/repository/repository.py:33-35 | two root entities of one class with the same comparable id and different versions are equal and hash alike |
| `Repository.NewRootEntity` | crud_django_app/polls/domain/repository/repository.py:33-35 | the generated constructor sets `version_id` to its argument, 0 by default, and leaves `entity_id` unassigned |
| `Repository.FreshRootEntitiesCannotCompare` | crud_django_app/polls/domain/repository/repository.py:20-35 | since the generated constructor never runs `Entity.__init__`, comparing two fresh root entities of one class, or hashing one, raises `AttributeError` |
| `Repository.NewEntity` | crud_django_app/polls/domain/repository/repository.py:20-21 | `Entity.__init__` assigns `entity_id`, `None` when not supplied |
| `Repository.IdLessEntitiesEqual` | crud_django_app/polls/domain/repository/repository.py:20-30 | entities of one class built without an id hold `None`, compare equal and hash to the hash of `None` |
| `Repository.DifferentKeysNotEqual` | crud_django_app/polls/domain/repository/repository.py:24-27 | entities of one class with different concrete identities are not equal |
| `Repository.BareValueObjectRaises` | crud_django_app/polls/domain/repository/repository.py:7-16 | comparing a bare value object or entity identity with `None` or any identity value, in either position, or hashing it, raises `NotImplementedError` |
| `Repository.BareIdentityEntityRaises` | crud_django_app/polls/domain/repository/repository.py:7-30 | comparing same-class entities when one holds a bare identity and the other holds an `entity_id`, in either order, or hashing the first, raises `NotImplementedError` |
| `Polls.Published` | crud_django_app/polls/views.py:17 | the `pub_date__lte=now` filter: each row occurs as often as in the table if published by `now`, otherwise not at all |
| `Polls.SortNewestFirst` | crud_django_app/polls/views.py:17 | `order_by("-pub_date")`: the result is newest first and a permutation of its input |
| `Polls.Index` | crud_django_app/polls/views.py:15-18 | the index has exactly min(5, number published) rows, all from the table and published by `now`, newest first, and no row occurs more often than among the published rows |
| `Polls.IndexIsMostRecent` | crud_django_app/polls/views.py:17 | every published row the index leaves out is no newer than any row it shows |
| `Polls.IndexShowsAllWhenFew` | crud_django_app/polls/views.py:17 | with at most five published questions the index shows exactly those |
| `Polls.IndexEmptyWhenNothingPublished` | crud_django_app/polls/views.py:17 | when every question is dated after `now`, the index is empty |
| `Polls.IndexShowsTwoPastNewestFirst` | crud_django_app/polls/tests.py:70-80 | two questions from 30 and 40 days ago are listed as [30 days ago, 40 days ago] |
| `Polls.IndexLeavesOutFuture` | crud_django_app/polls/tests.py:58-68 | beside a past question, a future one is left out of the index |
| `Polls.FindQuestion` | crud_django_app/polls/views.py:38 | the primary-key lookup returns a row of the table with that key, and fails exactly when no row has it |
| `Polls.Detail` | crud_django_app/polls/views.py:25-29 | the detail lookup returns a table row with that key published by `now`, and is not found exactly when every row with that key is dated after `now` |
| `Polls.DetailFindsPublished` | crud_django_app/polls/views.py:29 | with unique keys, a question published by `now` is found, and it is that question |
| `Polls.DetailHidesFuture` | crud_django_app/polls/views.py:29 | with unique keys, a question dated after `now` is not found |
| `Polls.IndexedQuestionsHaveDetail` | crud_django_app/polls/views.py:15-29 | every question the index shows has a detail page showing it |
| `Polls.FindChoice` | crud_django_app/polls/views.py:40 | `question.choice_set.get(pk=...)`: the result is the index of a choice with that key belonging to that question, and there is none exactly when no such choice exists |
| `Polls.TotalVotesAfterVote` | crud_django_app/polls/views.py:48 | one more vote for one choice raises the total of all counters by exactly one |
| `Polls.PollStore.Vote` | crud_django_app/polls/views.py:37-50 | for an unknown question the outcome is not-found. A missing choice field, or a choice not belonging to the question, gives the no-choice outcome. Text that is not a number gives the uncaught error. Each outcome holds exactly under its own condition. Only a recorded vote changes anything: the chosen choice's `votes` goes up by one, no other row or field changes, and the total rises by one. Publication is not checked |

## Left out

- `AbstractRepository.get`, `search`, `delete` and `save` (repository.py:38-73) are abstract classmethods with `pass` bodies. No implementation exists, so there is nothing to model. The source also implements no optimistic-concurrency check and no `version_id` increment, so neither is modelled.
- `Entity.__init__` forwards its extra positional and keyword arguments to `super().__init__` (repository.py:22). That cooperative-inheritance chain is not modelled.
- The concrete identity classes are not part of this model. The model assumes they compare structurally and decline to compare with anything else. Under that assumption, a comparison that involves a bare value object always reaches the raising `ValueObject.__eq__`.
- The numeric values of `hash(None)` and of a concrete identity's hash are a `Hasher` parameter. Python's reduction of hash values is not modelled.
- Assigning a new `entity_id` to an entity after it has been hashed is not modelled.
- Sorting: the order among questions with equal `pub_date` is left open. The database chooses it.
- Persistence: tables are in-memory sequences and `save()` is a replacement of the row. The database's integer range for `votes` is not modelled.
- Concurrent requests: the read-modify-write of `votes` (views.py:48-49) is not atomic under concurrency. Concurrency is not modelled.
- Uniqueness of primary keys is assumed (`PollStore.Valid`, and the `UniqueQuestionIds` requirement of the detail lemmas). The ORM's `MultipleObjectsReturned` therefore cannot arise and is not modelled.
- Which submitted texts the ORM accepts as a primary key is not modelled. The field arrives already classified as absent, a number, or not a number.
- `timezone.now()` is an integer parameter. Dates are integer timestamps.
- HTTP and templates are not modelled: `render`, `HttpResponseRedirect`, `reverse`, URL routing and the error message text. `ResultView` (views.py:32-34) adds nothing beyond routing, so it is left out too. Outcomes are the `VoteOutcome` values.
- `admin.py` holds only registration and configuration, and `was_published_recently` is defined in a models file that is not part of this model. Neither is modelled.
