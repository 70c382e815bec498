/**
 * The enrollment service: the read projection `getOneWithAddressByUserId`
 * and the write path `createOrUpdateEnrollmentWithAddress`, which validates
 * the CEP before it upserts the enrollment and then its address.
 */
module EnrollmentsService {
  import opened Wrappers
  import opened Errors
  import opened Cep
  import opened ViaCep
  import opened AddressFromCep
  import opened Records
  import opened Repositories

  // ---------------------------------------------------------------- read path

  /** `exclude(address, 'createdAt', 'updatedAt', 'enrollmentId')`. */
  function ExcludeAddressInternals(a: Address): (v: AddressView)
    ensures v.id == a.id && ParamsOf(v) == StoredParams(a)
  {
    AddressView(a.id, a.cep, a.street, a.city, a.state, a.number, a.neighborhood, a.addressDetail)
  }

  /** The inverse of `ExcludeAddressInternals`: put the internal fields back. */
  function WithAddressInternals(v: AddressView, enrollmentId: int, createdAt: int, updatedAt: int): Address
  {
    Address(v.id, v.cep, v.street, v.city, v.state, v.number, v.neighborhood, v.addressDetail,
            enrollmentId, createdAt, updatedAt)
  }

  /** Excluding the internal fields loses nothing else, in both directions. */
  lemma ExcludeAddressRoundTrip(a: Address, v: AddressView, enrollmentId: int, createdAt: int, updatedAt: int)
    ensures WithAddressInternals(ExcludeAddressInternals(a), a.enrollmentId, a.createdAt, a.updatedAt) == a
    ensures ExcludeAddressInternals(WithAddressInternals(v, enrollmentId, createdAt, updatedAt)) == v
  {
  }

  /** `const [firstAddress] = enrollmentWithAddress.Address`. */
  function FirstOf(addresses: seq<Address>): (r: Option<Address>)
    ensures r.Some? <==> |addresses| > 0
    ensures r.Some? ==> r.value == addresses[0]
  {
    if |addresses| == 0 then None else Some(addresses[0])
  }

  /** `getFirstAddress`: no address gives `null`, otherwise its view. */
  function GetFirstAddress(first: Option<Address>): (r: Option<AddressView>)
    ensures r.Some? <==> first.Some?
    ensures r.Some? ==> r.value.id == first.value.id && ParamsOf(r.value) == StoredParams(first.value)
  {
    match first
    case None => None
    case Some(a) => Some(ExcludeAddressInternals(a))
  }

  /**
   * The projection of `getOneWithAddressByUserId` applied to what the
   * repository found: NotFound without an enrollment; otherwise the
   * enrollment's own fields, with `address` present exactly when it has an
   * address, and then the first one.
   */
  function ProjectEnrollment(found: Option<EnrollmentWithAddress>): (r: Result<EnrollmentView, Error>)
    ensures r.Err? <==> found.None?
    ensures r.Err? ==> r.error == NotFound
    ensures r.Ok? ==>
              var e := found.value.enrollment;
              && r.value.id == e.id && r.value.name == e.name && r.value.cpf == e.cpf
              && r.value.birthday == e.birthday && r.value.phone == e.phone
    ensures r.Ok? ==> (r.value.address.Some? <==> |found.value.addresses| > 0)
    ensures r.Ok? && r.value.address.Some? ==>
              var first := found.value.addresses[0];
              r.value.address.value.id == first.id && ParamsOf(r.value.address.value) == StoredParams(first)
  {
    match found
    case None => Err(NotFound)
    case Some(ewa) =>
      var e := ewa.enrollment;
      var address := GetFirstAddress(FirstOf(ewa.addresses));
      Ok(EnrollmentView(e.id, e.name, e.cpf, e.birthday, e.phone, address))
  }

  /**
   * The view does not depend on `userId`, `createdAt`, `updatedAt`, on the
   * first address's internal fields, or on any address after the first.
   */
  lemma ProjectionIgnoresInternals(e1: Enrollment, e2: Enrollment, as1: seq<Address>, as2: seq<Address>)
    requires e1.id == e2.id && StoredEnrollmentParams(e1) == StoredEnrollmentParams(e2)
    requires |as1| > 0 <==> |as2| > 0
    requires |as1| > 0 ==> as1[0].id == as2[0].id && StoredParams(as1[0]) == StoredParams(as2[0])
    ensures ProjectEnrollment(Some(EnrollmentWithAddress(e1, as1))) == ProjectEnrollment(Some(EnrollmentWithAddress(e2, as2)))
  {
  }

  /** What `getOneWithAddressByUserId(userId)` returns on store contents `db`. */
  function View(db: Db, userId: int): (r: Result<EnrollmentView, Error>)
    ensures r.Err? <==> userId !in db.enrollments
    ensures r.Ok? ==>
              var e := db.enrollments[userId];
              && r.value.id == e.id && r.value.name == e.name && r.value.cpf == e.cpf
              && r.value.birthday == e.birthday && r.value.phone == e.phone
              && (r.value.address.Some? <==> e.id in db.addresses)
              && (r.value.address.Some? ==> r.value.address.value == ExcludeAddressInternals(db.addresses[e.id]))
  {
    ProjectEnrollment(Find(db, userId))
  }

  /** `getOneWithAddressByUserId`, lines 41-53. */
  method GetOneWithAddressByUserId(store: Store, userId: int) returns (r: Result<EnrollmentView, Error>)
    ensures r == View(store.State(), userId)
    ensures r.Err? <==> userId !in store.enrollments
  {
    var enrollmentWithAddress := store.FindWithAddressByUserId(userId);
    if enrollmentWithAddress.None? {
      return Err(NotFound);
    }
    var e := enrollmentWithAddress.value.enrollment;
    var address := GetFirstAddress(FirstOf(enrollmentWithAddress.value.addresses));
    r := Ok(EnrollmentView(e.id, e.name, e.cpf, e.birthday, e.phone, address));
  }

  /** A user with an enrollment but no address gets a view without `address`. */
  lemma NoAddressNoKey(db: Db, userId: int)
    requires userId in db.enrollments && db.enrollments[userId].id !in db.addresses
    ensures View(db, userId).Ok? && View(db, userId).value.address.None?
  {
  }

  // --------------------------------------------------------------- write path

  /** `exclude(params, 'address')`: the enrollment create payload. */
  function EnrollmentOf(p: CreateOrUpdateParams): (c: CreateEnrollmentParams)
    ensures c.userId == p.userId
    ensures c.name == p.name && c.cpf == p.cpf && c.birthday == p.birthday && c.phone == p.phone
  {
    CreateEnrollmentParams(p.name, p.cpf, p.birthday, p.phone, p.userId)
  }

  /** Whether `Boolean(address.addressDetail)` holds. */
  predicate HasAddressDetail(a: AddressParams)
  {
    a.addressDetail.Some? && a.addressDetail.value != ""
  }

  /**
   * `getAddressForUpsert`: the spread of the address, overlaid with
   * `addressDetail` when that is truthy. Every field comes out as it went in:
   * a set `addressDetail` is kept, an empty or null one is left as it was.
   */
  function GetAddressForUpsert(address: AddressParams): (r: AddressParams)
    ensures r == address
    ensures HasAddressDetail(address) ==> r.addressDetail == address.addressDetail
  {
    var overlay := if HasAddressDetail(address) then Some(address.addressDetail.value) else None;
    match overlay
    case None => address
    case Some(detail) => address.(addressDetail := Some(detail))
  }

  /**
   * What `createOrUpdateEnrollmentWithAddress` does to the store: the CEP is
   * resolved first and a failure is thrown before any write; otherwise the
   * enrollment is upserted under the user id (the update payload without
   * `userId`) and the address under the id of the enrollment that upsert
   * returned, with the same payload for create and update. The resolved
   * fragment is not used.
   */
  function CreateOrUpdate(db: Db, params: CreateOrUpdateParams, schema: string -> bool,
                          directory: string -> ViaCepData, now: int): (r: Result<Db, Error>)
    ensures r.Err? <==> Resolve(Some(params.address.cep), schema, directory).Err?
    ensures r.Err? ==> r.error == NotFound
  {
    var enrollment := EnrollmentOf(params);
    var address := GetAddressForUpsert(params.address);
    match Resolve(Some(address.cep), schema, directory)
    case Err(e) => Err(e)
    case Ok(_) =>
      var newEnrollment := UpsertedEnrollment(db, params.userId, enrollment, WithoutUserId(enrollment), now);
      var afterEnrollment := WithEnrollmentUpsert(db, params.userId, enrollment, WithoutUserId(enrollment), now);
      Ok(WithAddressUpsert(afterEnrollment, newEnrollment.id, address, address, now))
  }

  /** `createOrUpdateEnrollmentWithAddress`, lines 65-73. */
  method CreateOrUpdateEnrollmentWithAddress(store: Store, params: CreateOrUpdateParams, schema: string -> bool,
                                             directory: string -> ViaCepData, now: int)
    returns (r: Result<(), Error>)
    requires Valid(store.State())
    modifies store
    ensures Valid(store.State())
    ensures var spec := CreateOrUpdate(old(store.State()), params, schema, directory, now);
            && (r.Ok? <==> spec.Ok?)
            && (spec.Err? ==> r == Err(spec.error) && store.State() == old(store.State()))
            && (spec.Ok? ==> store.State() == spec.value)
  {
    ghost var before := store.State();
    var enrollment := EnrollmentOf(params);
    var address := GetAddressForUpsert(params.address);
    var fragment := GetAddressFromCep(Some(address.cep), schema, directory);
    if fragment.Err? {
      return Err(fragment.error);
    }
    var newEnrollment := store.UpsertEnrollment(params.userId, enrollment, WithoutUserId(enrollment), now);
    var _ := store.UpsertAddress(newEnrollment.id, address, address, now);
    CreateOrUpdateKeepsValid(before, params, schema, directory, now);
    r := Ok(());
  }

  /** The write path keeps the store's invariant. */
  lemma {:induction false} CreateOrUpdateKeepsValid(db: Db, params: CreateOrUpdateParams, schema: string -> bool,
                                                    directory: string -> ViaCepData, now: int)
    requires Valid(db)
    requires CreateOrUpdate(db, params, schema, directory, now).Ok?
    ensures Valid(CreateOrUpdate(db, params, schema, directory, now).value)
  {
    var enrollment := EnrollmentOf(params);
    var update := WithoutUserId(enrollment);
    EnrollmentUpsertKeepsValid(db, params.userId, enrollment, update, now);
    var afterEnrollment := WithEnrollmentUpsert(db, params.userId, enrollment, update, now);
    var newEnrollment := UpsertedEnrollment(db, params.userId, enrollment, update, now);
    AddressUpsertKeepsValid(afterEnrollment, newEnrollment.id, params.address, params.address, now);
  }

  /**
   * After a successful write the user owns exactly one enrollment, and the
   * view reads back the supplied enrollment fields and the supplied address.
   */
  lemma ReadAfterWrite(db: Db, params: CreateOrUpdateParams, schema: string -> bool,
                                          directory: string -> ViaCepData, now: int)
    requires Valid(db)
    requires CreateOrUpdate(db, params, schema, directory, now).Ok?
    ensures var after := CreateOrUpdate(db, params, schema, directory, now).value;
            && params.userId in after.enrollments
            && (forall u :: u in after.enrollments && after.enrollments[u].userId == params.userId ==> u == params.userId)
    ensures var v := View(CreateOrUpdate(db, params, schema, directory, now).value, params.userId);
            && v.Ok?
            && v.value.name == params.name && v.value.cpf == params.cpf
            && v.value.birthday == params.birthday && v.value.phone == params.phone
            && v.value.address.Some? && ParamsOf(v.value.address.value) == params.address
  {
  }

  /**
   * An existing enrollment keeps its id, owner and creation time, and an
   * existing address of it keeps its id: an update never makes a second row.
   */
  lemma UpdateKeepsIdentity(db: Db, params: CreateOrUpdateParams, schema: string -> bool,
                                               directory: string -> ViaCepData, now: int)
    requires Valid(db) && params.userId in db.enrollments
    requires CreateOrUpdate(db, params, schema, directory, now).Ok?
    ensures var after := CreateOrUpdate(db, params, schema, directory, now).value;
            var was := db.enrollments[params.userId];
            && after.enrollments.Keys == db.enrollments.Keys
            && after.enrollments[params.userId].id == was.id
            && after.enrollments[params.userId].userId == was.userId
            && after.enrollments[params.userId].createdAt == was.createdAt
            && (was.id in db.addresses ==>
                  after.addresses.Keys == db.addresses.Keys && after.addresses[was.id].id == db.addresses[was.id].id)
  {
  }

  /** Another user's enrollment and view are the same after the write as before. */
  lemma OtherUsersUntouched(db: Db, params: CreateOrUpdateParams, schema: string -> bool,
                                               directory: string -> ViaCepData, now: int, other: int)
    requires Valid(db) && other != params.userId
    requires CreateOrUpdate(db, params, schema, directory, now).Ok?
    ensures var after := CreateOrUpdate(db, params, schema, directory, now).value;
            && (other in after.enrollments <==> other in db.enrollments)
            && (other in db.enrollments ==> after.enrollments[other] == db.enrollments[other])
            && View(after, other) == View(db, other)
  {
  }

  /**
   * Two successful writes for the same user: the second one's data is what
   * is read back, and it reuses the rows the first one left.
   */
  lemma LastWriteWins(db: Db, first: CreateOrUpdateParams, second: CreateOrUpdateParams,
                                         schema: string -> bool, directory: string -> ViaCepData, t1: int, t2: int)
    requires Valid(db) && first.userId == second.userId
    requires CreateOrUpdate(db, first, schema, directory, t1).Ok?
    requires CreateOrUpdate(CreateOrUpdate(db, first, schema, directory, t1).value, second, schema, directory, t2).Ok?
    ensures var mid := CreateOrUpdate(db, first, schema, directory, t1).value;
            var last := CreateOrUpdate(mid, second, schema, directory, t2).value;
            && |last.enrollments| == |mid.enrollments|
            && |last.addresses| == |mid.addresses|
            && last.enrollments[second.userId].id == mid.enrollments[first.userId].id
    ensures var mid := CreateOrUpdate(db, first, schema, directory, t1).value;
            var v := View(CreateOrUpdate(mid, second, schema, directory, t2).value, second.userId);
            && v.Ok?
            && v.value.name == second.name && v.value.cpf == second.cpf
            && v.value.birthday == second.birthday && v.value.phone == second.phone
            && v.value.address.Some? && ParamsOf(v.value.address.value) == second.address
  {
  }

  /** With the ddddd-ddd rule, a CEP spelled any other way is refused and nothing is written. */
  lemma MalformedCepWritesNothing(db: Db, params: CreateOrUpdateParams,
                                                     directory: string -> ViaCepData, now: int)
    requires var c := params.address.cep; !((|c| == 8 && AllDigits(c)) || IsCepFormat(c))
    ensures CreateOrUpdate(db, params, IsCepFormat, directory, now) == Err(NotFound)
  {
  }

  /**
   * The address the directory returns is not merged into what is stored: any
   * two successful lookups lead to the same store.
   */
  lemma LookupResultNotMerged(db: Db, params: CreateOrUpdateParams, schema: string -> bool,
                              d1: string -> ViaCepData, d2: string -> ViaCepData, now: int)
    requires Resolve(Some(params.address.cep), schema, d1).Ok?
    requires Resolve(Some(params.address.cep), schema, d2).Ok?
    ensures CreateOrUpdate(db, params, schema, d1, now) == CreateOrUpdate(db, params, schema, d2, now)
  {
  }
}
