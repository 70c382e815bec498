/**
 * The two repositories the service writes through, as one store holding two
 * tables: enrollments filed under their owner's user id, addresses filed under
 * their enrollment's id. Both upserts follow the database's create-or-update:
 * the where-key picks the row; a missing row is created with the next id, an
 * existing one keeps its id, key and creation time and takes the update
 * payload. `now` is the instant of the write.
 */
module Repositories {
  import opened Wrappers
  import opened Records

  /** The contents of both tables and their id counters. */
  datatype Db = Db(
    enrollments: map<int, Enrollment>,
    addresses: map<int, Address>,
    nextEnrollmentId: int,
    nextAddressId: int)

  /**
   * The store's invariant: every enrollment is filed under its owner and has
   * an id of its own below the counter; every address is filed under the id
   * of its enrollment, which was handed out already, and has an id below the
   * address counter.
   */
  predicate Valid(db: Db)
  {
    && (forall u :: u in db.enrollments ==>
          db.enrollments[u].userId == u && db.enrollments[u].id < db.nextEnrollmentId)
    && (forall u, v :: u in db.enrollments && v in db.enrollments && u != v ==>
          db.enrollments[u].id != db.enrollments[v].id)
    && (forall k :: k in db.addresses ==>
          db.addresses[k].enrollmentId == k && k < db.nextEnrollmentId && db.addresses[k].id < db.nextAddressId)
  }

  /** Both tables empty, ids starting at 1. */
  function Empty(): (db: Db)
    ensures Valid(db)
  {
    Db(map[], map[], 1, 1)
  }

  /** The enrollment row `upsert(userId, create, update)` leaves under `userId`. */
  function UpsertedEnrollment(db: Db, userId: int, create: CreateEnrollmentParams, update: UpdateEnrollmentParams, now: int)
    : (e: Enrollment)
    ensures userId in db.enrollments ==>
              var was := db.enrollments[userId];
              && e.id == was.id && e.userId == was.userId && e.createdAt == was.createdAt
              && StoredEnrollmentParams(e) == update && e.updatedAt == now
    ensures userId !in db.enrollments ==>
              && e.id == db.nextEnrollmentId && e.userId == create.userId
              && StoredEnrollmentParams(e) == WithoutUserId(create) && e.createdAt == now && e.updatedAt == now
  {
    if userId in db.enrollments then
      db.enrollments[userId].(name := update.name, cpf := update.cpf, birthday := update.birthday,
                              phone := update.phone, updatedAt := now)
    else
      Enrollment(db.nextEnrollmentId, create.name, create.cpf, create.birthday, create.phone, create.userId, now, now)
  }

  /** The store after `enrollmentRepository.upsert(userId, create, update)`. */
  function WithEnrollmentUpsert(db: Db, userId: int, create: CreateEnrollmentParams, update: UpdateEnrollmentParams, now: int)
    : (r: Db)
    ensures r.enrollments.Keys == db.enrollments.Keys + {userId}
    ensures r.enrollments[userId] == UpsertedEnrollment(db, userId, create, update, now)
    ensures forall u :: u in db.enrollments && u != userId ==> r.enrollments[u] == db.enrollments[u]
    ensures r.addresses == db.addresses && r.nextAddressId == db.nextAddressId
  {
    var e := UpsertedEnrollment(db, userId, create, update, now);
    var next := if userId in db.enrollments then db.nextEnrollmentId else db.nextEnrollmentId + 1;
    db.(enrollments := db.enrollments[userId := e], nextEnrollmentId := next)
  }

  /** The address row `upsert(enrollmentId, create, update)` leaves under `enrollmentId`. */
  function UpsertedAddress(db: Db, enrollmentId: int, create: AddressParams, update: AddressParams, now: int)
    : (a: Address)
    ensures a.updatedAt == now
    ensures enrollmentId in db.addresses ==>
              var was := db.addresses[enrollmentId];
              && a.id == was.id && a.enrollmentId == was.enrollmentId && a.createdAt == was.createdAt
              && StoredParams(a) == update
    ensures enrollmentId !in db.addresses ==>
              && a.id == db.nextAddressId && a.enrollmentId == enrollmentId && a.createdAt == now
              && StoredParams(a) == create
  {
    if enrollmentId in db.addresses then
      db.addresses[enrollmentId].(cep := update.cep, street := update.street, city := update.city,
                                  state := update.state, number := update.number,
                                  neighborhood := update.neighborhood, addressDetail := update.addressDetail,
                                  updatedAt := now)
    else
      Address(db.nextAddressId, create.cep, create.street, create.city, create.state, create.number,
              create.neighborhood, create.addressDetail, enrollmentId, now, now)
  }

  /** The store after `addressRepository.upsert(enrollmentId, create, update)`. */
  function WithAddressUpsert(db: Db, enrollmentId: int, create: AddressParams, update: AddressParams, now: int)
    : (r: Db)
    ensures r.addresses.Keys == db.addresses.Keys + {enrollmentId}
    ensures r.addresses[enrollmentId] == UpsertedAddress(db, enrollmentId, create, update, now)
    ensures forall k :: k in db.addresses && k != enrollmentId ==> r.addresses[k] == db.addresses[k]
    ensures r.enrollments == db.enrollments && r.nextEnrollmentId == db.nextEnrollmentId
  {
    var a := UpsertedAddress(db, enrollmentId, create, update, now);
    var next := if enrollmentId in db.addresses then db.nextAddressId else db.nextAddressId + 1;
    db.(addresses := db.addresses[enrollmentId := a], nextAddressId := next)
  }

  /** `findWithAddressByUserId`: the user's enrollment with the addresses filed under its id. */
  function Find(db: Db, userId: int): (r: Option<EnrollmentWithAddress>)
    ensures r.Some? <==> userId in db.enrollments
    ensures r.Some? ==> r.value.enrollment == db.enrollments[userId]
    ensures r.Some? ==>
              var id := r.value.enrollment.id;
              (|r.value.addresses| > 0 <==> id in db.addresses)
              && (id in db.addresses ==> r.value.addresses[0] == db.addresses[id])
  {
    if userId !in db.enrollments then None
    else
      var e := db.enrollments[userId];
      Some(EnrollmentWithAddress(e, if e.id in db.addresses then [db.addresses[e.id]] else []))
  }

  /** An enrollment upsert whose create payload names the key's owner keeps the store valid. */
  lemma EnrollmentUpsertKeepsValid(db: Db, userId: int, create: CreateEnrollmentParams, update: UpdateEnrollmentParams, now: int)
    requires Valid(db) && create.userId == userId
    ensures Valid(WithEnrollmentUpsert(db, userId, create, update, now))
  {
  }

  /** An address upsert under an id already handed out keeps the store valid. */
  lemma AddressUpsertKeepsValid(db: Db, enrollmentId: int, create: AddressParams, update: AddressParams, now: int)
    requires Valid(db) && enrollmentId < db.nextEnrollmentId
    ensures Valid(WithAddressUpsert(db, enrollmentId, create, update, now))
  {
  }

  /** The database tables, updated in place by the two repositories. */
  class Store {
    var enrollments: map<int, Enrollment>
    var addresses: map<int, Address>
    var nextEnrollmentId: int
    var nextAddressId: int

    /** The tables' current contents. */
    function State(): Db
      reads this
    {
      Db(enrollments, addresses, nextEnrollmentId, nextAddressId)
    }

    constructor ()
      ensures State() == Empty()
    {
      enrollments := map[];
      addresses := map[];
      nextEnrollmentId := 1;
      nextAddressId := 1;
    }

    /** `enrollmentRepository.upsert(userId, create, update)`. */
    method UpsertEnrollment(userId: int, create: CreateEnrollmentParams, update: UpdateEnrollmentParams, now: int)
      returns (e: Enrollment)
      modifies this
      ensures e == UpsertedEnrollment(old(State()), userId, create, update, now)
      ensures State() == WithEnrollmentUpsert(old(State()), userId, create, update, now)
    {
      if userId in enrollments {
        var existing := enrollments[userId];
        e := existing.(name := update.name, cpf := update.cpf, birthday := update.birthday,
                       phone := update.phone, updatedAt := now);
      } else {
        e := Enrollment(nextEnrollmentId, create.name, create.cpf, create.birthday, create.phone,
                        create.userId, now, now);
        nextEnrollmentId := nextEnrollmentId + 1;
      }
      enrollments := enrollments[userId := e];
    }

    /** `addressRepository.upsert(enrollmentId, create, update)`. */
    method UpsertAddress(enrollmentId: int, create: AddressParams, update: AddressParams, now: int)
      returns (a: Address)
      modifies this
      ensures a == UpsertedAddress(old(State()), enrollmentId, create, update, now)
      ensures State() == WithAddressUpsert(old(State()), enrollmentId, create, update, now)
    {
      if enrollmentId in addresses {
        var existing := addresses[enrollmentId];
        a := existing.(cep := update.cep, street := update.street, city := update.city,
                       state := update.state, number := update.number,
                       neighborhood := update.neighborhood, addressDetail := update.addressDetail,
                       updatedAt := now);
      } else {
        a := Address(nextAddressId, create.cep, create.street, create.city, create.state, create.number,
                     create.neighborhood, create.addressDetail, enrollmentId, now, now);
        nextAddressId := nextAddressId + 1;
      }
      addresses := addresses[enrollmentId := a];
    }

    /** `enrollmentRepository.findWithAddressByUserId(userId)`. */
    method FindWithAddressByUserId(userId: int) returns (r: Option<EnrollmentWithAddress>)
      ensures r == Find(State(), userId)
    {
      if userId !in enrollments {
        return None;
      }
      var e := enrollments[userId];
      var found: seq<Address> := [];
      if e.id in addresses {
        found := [addresses[e.id]];
      }
      r := Some(EnrollmentWithAddress(e, found));
    }
  }
}
