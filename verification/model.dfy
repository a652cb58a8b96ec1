/** The values the page handlers see: identifiers, dates, the entities read from
    the service layer, the create/update payloads sent to it, the replies it
    gives, and what a handler ends with. */
module Model {
  import opened Nullable

  /** A GUID is 128 bits; `Guid.Empty` is the all-zero value. */
  const GuidSpace: nat := 0x1_0000_0000_0000_0000_0000_0000_0000_0000
  type Guid = n: nat | n < GuidSpace
  const EmptyGuid: Guid := 0

  /** `id.HasValue && id != Guid.Empty`: the test both edit pages use to choose
      between update and create. */
  predicate HasNonEmptyId(id: Option<Guid>) {
    id.Some? && id.value != EmptyGuid
  }

  /** C# `int`. */
  type Int32 = x: int | -0x8000_0000 <= x < 0x8000_0000

  /** A point in time, ordered lexicographically (the order of .NET ticks for
      valid dates); only the year is read on its own. */
  datatype DateTime = DateTime(year: int, month: int, day: int, tickOfDay: int)

  /** `a > b` on DateTime. */
  predicate Later(a: DateTime, b: DateTime) {
    || a.year > b.year
    || (a.year == b.year && a.month > b.month)
    || (a.year == b.year && a.month == b.month && a.day > b.day)
    || (a.year == b.year && a.month == b.month && a.day == b.day && a.tickOfDay > b.tickOfDay)
  }

  /** `Later` is a strict total order: irreflexive, transitive, and of two
      distinct points in time exactly one is later. */
  lemma LaterIsStrictTotalOrder(a: DateTime, b: DateTime, c: DateTime)
    ensures !Later(a, a)
    ensures Later(a, b) && Later(b, c) ==> Later(a, c)
    ensures a != b ==> (Later(a, b) <==> !Later(b, a))
  {
  }

  /** IAddress as the service returns it. */
  datatype Address = Address(
    addressId: Guid,
    streetAddress: Option<string>,
    zipCode: Int32,
    city: Option<string>,
    country: Option<string>)

  /** IFriend as the service returns it. */
  datatype Friend = Friend(
    friendId: Guid,
    firstName: Option<string>,
    lastName: Option<string>,
    email: Option<string>,
    birthday: Option<DateTime>,
    address: Option<Address>)

  /** `Friend.Address?.AddressId`. */
  function AddressIdOf(f: Friend): Option<Guid> {
    if f.address.Some? then Some(f.address.value.addressId) else None
  }

  /** AddressCuDto: the create/update payload for an address. */
  datatype AddressCuDto = AddressCuDto(
    addressId: Option<Guid>,
    streetAddress: Option<string>,
    zipCode: Int32,
    city: Option<string>,
    country: Option<string>)

  /** FriendCuDto: the create/update payload for a friend. */
  datatype FriendCuDto = FriendCuDto(
    friendId: Option<Guid>,
    firstName: Option<string>,
    lastName: Option<string>,
    email: Option<string>,
    birthday: Option<DateTime>,
    addressId: Option<Guid>)

  /** `new FriendCuDto(friend)`: the payload that writes a friend back unchanged. */
  function FriendPayloadOf(f: Friend): FriendCuDto {
    FriendCuDto(Some(f.friendId), f.firstName, f.lastName, f.email, f.birthday, AddressIdOf(f))
  }

  /** What an awaited service call yields: a response whose Item is set, a
      null response or null Item, or an exception (with its message). */
  datatype Reply<+T> = Found(item: T) | NotFound | Failed(message: string)

  /** The service calls a handler issues, in order. Reads pass
      includeDeleted = false throughout. */
  datatype Call =
    | ReadAddress(addressId: Guid)
    | CreateAddress(addressDto: AddressCuDto)
    | UpdateAddress(addressDto: AddressCuDto)
    | ReadFriend(friendId: Guid)
    | CreateFriend(friendDto: FriendCuDto)
    | UpdateFriend(friendDto: FriendCuDto)
    | DeletePet(petId: Guid)
    | DeleteQuote(quoteId: Guid)

  /** Where a redirect goes. */
  datatype Target =
    | Overview                           // "/Friends/Overview"
    | FriendDetails(friendId: Guid)      // "/Friends/Details/{id}"
    | DetailsRoute(id: Option<string>)   // the Details page itself with route value id

  /** `Page()` with the page model's state, or a redirect. */
  datatype Outcome<+S> = Page(state: S) | Redirect(target: Target)

  /** A handler's result together with the service calls it issued. */
  datatype Handled<+S> = Handled(outcome: Outcome<S>, calls: seq<Call>)

  /** `$"An error occurred: {ex.Message}"`. */
  function ErrorOccurred(message: string): string {
    "An error occurred: " + message
  }

  /** `errors.TryGetValue(key)`: the message recorded for a field, if any. */
  function Lookup(errors: map<string, string>, key: string): Option<string> {
    if key in errors then Some(errors[key]) else None
  }

  /** The map holding `key -> message` when a check produced a message. */
  function Entry(key: string, message: Option<string>): map<string, string> {
    if message.Some? then map[key := message.value] else map[]
  }

  /** Four entries under distinct keys: each key maps to its own message. */
  lemma FourEntries(k1: string, k2: string, k3: string, k4: string,
                    m1: Option<string>, m2: Option<string>, m3: Option<string>, m4: Option<string>)
    requires k1 != k2 && k1 != k3 && k1 != k4 && k2 != k3 && k2 != k4 && k3 != k4
    ensures var e := Entry(k1, m1) + Entry(k2, m2) + Entry(k3, m3) + Entry(k4, m4);
      && e.Keys <= {k1, k2, k3, k4}
      && Lookup(e, k1) == m1 && Lookup(e, k2) == m2 && Lookup(e, k3) == m3 && Lookup(e, k4) == m4
  {
  }
}
