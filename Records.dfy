/**
 * The records the enrollment service reads and writes, and the payload
 * shapes it passes to the repositories. Dates are instants as integers.
 */
module Records {
  import opened Wrappers

  /** A stored enrollment; `userId` is its owner, at most one per user. */
  datatype Enrollment = Enrollment(
    id: int,
    name: string,
    cpf: string,
    birthday: int,
    phone: string,
    userId: int,
    createdAt: int,
    updatedAt: int)

  /** A stored address; `addressDetail` is optional (a nullable column). */
  datatype Address = Address(
    id: int,
    cep: string,
    street: string,
    city: string,
    state: string,
    number: string,
    neighborhood: string,
    addressDetail: Option<string>,
    enrollmentId: int,
    createdAt: int,
    updatedAt: int)

  /** What the enrollment repository finds for a user: the enrollment and its `Address` list. */
  datatype EnrollmentWithAddress = EnrollmentWithAddress(enrollment: Enrollment, addresses: seq<Address>)

  /** The address fields a caller supplies: an Address without id, timestamps and enrollment. */
  datatype AddressParams = AddressParams(
    cep: string,
    street: string,
    city: string,
    state: string,
    number: string,
    neighborhood: string,
    addressDetail: Option<string>)

  /** The enrollment create payload: an Enrollment without id and timestamps. */
  datatype CreateEnrollmentParams = CreateEnrollmentParams(
    name: string,
    cpf: string,
    birthday: int,
    phone: string,
    userId: int)

  /** The enrollment update payload: the create payload without `userId`. */
  datatype UpdateEnrollmentParams = UpdateEnrollmentParams(
    name: string,
    cpf: string,
    birthday: int,
    phone: string)

  /** The argument of `createOrUpdateEnrollmentWithAddress`. */
  datatype CreateOrUpdateParams = CreateOrUpdateParams(
    name: string,
    cpf: string,
    birthday: int,
    phone: string,
    userId: int,
    address: AddressParams)

  /** An Address without `createdAt`, `updatedAt` and `enrollmentId`. */
  datatype AddressView = AddressView(
    id: int,
    cep: string,
    street: string,
    city: string,
    state: string,
    number: string,
    neighborhood: string,
    addressDetail: Option<string>)

  /**
   * What `getOneWithAddressByUserId` returns: the enrollment without `userId`,
   * `createdAt`, `updatedAt` and `Address`; `address` is present only when
   * the enrollment has one.
   */
  datatype EnrollmentView = EnrollmentView(
    id: int,
    name: string,
    cpf: string,
    birthday: int,
    phone: string,
    address: Option<AddressView>)

  /** The caller-supplied fields an address view carries. */
  function ParamsOf(v: AddressView): AddressParams
  {
    AddressParams(v.cep, v.street, v.city, v.state, v.number, v.neighborhood, v.addressDetail)
  }

  /** The caller-supplied fields a stored address carries. */
  function StoredParams(a: Address): AddressParams
  {
    AddressParams(a.cep, a.street, a.city, a.state, a.number, a.neighborhood, a.addressDetail)
  }

  /** The caller-supplied fields a stored enrollment carries. */
  function StoredEnrollmentParams(e: Enrollment): UpdateEnrollmentParams
  {
    UpdateEnrollmentParams(e.name, e.cpf, e.birthday, e.phone)
  }

  /** `exclude(enrollment, 'userId')`: the update payload built from a create payload. */
  function WithoutUserId(c: CreateEnrollmentParams): (u: UpdateEnrollmentParams)
    ensures u.name == c.name && u.cpf == c.cpf && u.birthday == c.birthday && u.phone == c.phone
  {
    UpdateEnrollmentParams(c.name, c.cpf, c.birthday, c.phone)
  }

  /** Nothing but the owner is lost when the update payload is built. */
  lemma WithoutUserIdRoundTrip(c: CreateEnrollmentParams)
    ensures var u := WithoutUserId(c); CreateEnrollmentParams(u.name, u.cpf, u.birthday, u.phone, c.userId) == c
  {
  }
}
