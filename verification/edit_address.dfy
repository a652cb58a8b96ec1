/** The EditAddress page: field validation of an address form, loading an
    address into the form (`OnGet`) and saving it (`OnPost`), including the
    re-link of a friend to a newly created address. */
module EditAddress {
  import opened Nullable
  import opened Text
  import opened Model

  const StreetAddressKey := "StreetAddress"
  const CityKey := "City"
  const ZipCodeKey := "ZipCode"
  const CountryKey := "Country"
  const AddressKeys: set<string> := {StreetAddressKey, CityKey, ZipCodeKey, CountryKey}

  /** The three ordered checks of a free-text address field and their messages. */
  datatype TextRule = TextRule(maxLength: nat, required: string, charset: string, tooLong: string)

  const StreetRule := TextRule(255,
    "Street address is required.",
    "Street address can only contain letters, numbers, and spaces.",
    "Street address cannot exceed 255 characters.")
  const CityRule := TextRule(100,
    "City is required.",
    "City can only contain letters, numbers, and spaces.",
    "City cannot exceed 100 characters.")
  const CountryRule := TextRule(100,
    "Country is required.",
    "Country can only contain letters, numbers, and spaces.",
    "Country cannot exceed 100 characters.")
  const ZipCodeMessage := "Zip code must be between 0 and 999999."
  const CorrectFieldsMessage := "Please correct the highlighted fields."
  const SaveFailedMessage := "Failed to save address. Please try again."
  const LoadFailedMessage := "An error occurred while loading the address details."

  /** A text field the address invariant accepts: present, not blank, only
      ASCII letters, digits and whitespace, and at most `maxLength` UTF-16
      code units. */
  ghost predicate AcceptableText(maxLength: nat, v: Option<string>) {
    && v.Some?
    && (exists i :: 0 <= i < |v.value| && !IsWhiteSpace(v.value[i]))
    && (forall i :: 0 <= i < |v.value| ==> IsAddressChar(v.value[i]))
    && Utf16Length(v.value) <= maxLength
  }

  ghost predicate AcceptableZipCode(zip: int) {
    0 <= zip <= 999999
  }

  /** The address invariant: what a stored address is meant to satisfy. */
  ghost predicate ValidAddressFields(street: Option<string>, zip: int, city: Option<string>, country: Option<string>) {
    && AcceptableText(StreetRule.maxLength, street)
    && AcceptableText(CityRule.maxLength, city)
    && AcceptableZipCode(zip)
    && AcceptableText(CountryRule.maxLength, country)
  }

  /** The message of the first failing check of a text field: required, then
      character set, then length. */
  function TextFieldError(rule: TextRule, v: Option<string>): (m: Option<string>)
    ensures IsNullOrWhiteSpace(v) ==> m == Some(rule.required)
    ensures !IsNullOrWhiteSpace(v) && (exists i :: 0 <= i < |v.value| && !IsAddressChar(v.value[i]))
            ==> m == Some(rule.charset)
    ensures (&& !IsNullOrWhiteSpace(v)
             && (forall i :: 0 <= i < |v.value| ==> IsAddressChar(v.value[i]))
             && Utf16Length(v.value) > rule.maxLength)
            ==> m == Some(rule.tooLong)
    ensures m.None? <==> AcceptableText(rule.maxLength, v)
  {
    if IsNullOrWhiteSpace(v) then Some(rule.required)
    else if HasDisallowedChar(v.value) then Some(rule.charset)
    else if Utf16Length(v.value) > rule.maxLength then Some(rule.tooLong)
    else None
  }

  function ZipCodeError(zip: Int32): (m: Option<string>)
    ensures m.None? <==> AcceptableZipCode(zip)
  {
    if zip < 0 || zip > 999999 then Some(ZipCodeMessage) else None
  }

  /** The page's bound properties. */
  datatype AddressForm = AddressForm(
    addressId: Option<Guid>,
    streetAddress: Option<string>,
    zipCode: Int32,
    city: Option<string>,
    country: Option<string>,
    friendId: Option<Guid>)

  /** The page model: the form plus the state a rendered page shows. */
  datatype AddressPage = AddressPage(
    form: AddressForm,
    address: Option<Address>,
    isNewAddress: bool,
    errorMessage: Option<string>,
    validationErrors: map<string, string>)

  /** `ValidateInput`: the map starts empty and each field adds at most the
      message of its own first failing check. */
  function ValidateAddress(f: AddressForm): (errs: map<string, string>)
    ensures errs.Keys <= AddressKeys
    ensures Lookup(errs, StreetAddressKey) == TextFieldError(StreetRule, f.streetAddress)
    ensures Lookup(errs, CityKey) == TextFieldError(CityRule, f.city)
    ensures Lookup(errs, ZipCodeKey) == ZipCodeError(f.zipCode)
    ensures Lookup(errs, CountryKey) == TextFieldError(CountryRule, f.country)
  {
    var street := TextFieldError(StreetRule, f.streetAddress);
    var city := TextFieldError(CityRule, f.city);
    var zip := ZipCodeError(f.zipCode);
    var country := TextFieldError(CountryRule, f.country);
    FourEntries(StreetAddressKey, CityKey, ZipCodeKey, CountryKey, street, city, zip, country);
    Entry(StreetAddressKey, street) + Entry(CityKey, city) + Entry(ZipCodeKey, zip) + Entry(CountryKey, country)
  }

  /** The form passes validation exactly when its fields satisfy the address
      invariant. */
  lemma ValidationMatchesInvariant(f: AddressForm)
    ensures |ValidateAddress(f)| == 0
            <==> ValidAddressFields(f.streetAddress, f.zipCode, f.city, f.country)
  {
    var errs := ValidateAddress(f);
    if |errs| == 0 {
      assert errs == map[];
    } else {
      var k :| k in errs;
      assert Lookup(errs, k).Some?;
    }
  }

  /** Boundaries of the zip code rule: 0 and 999999 are accepted, -1 and
      1000000 refused, whatever the other fields hold. */
  lemma ZipCodeBoundaries(f: AddressForm)
    ensures ZipCodeKey !in ValidateAddress(f.(zipCode := 0))
    ensures ZipCodeKey !in ValidateAddress(f.(zipCode := 999999))
    ensures Lookup(ValidateAddress(f.(zipCode := -1)), ZipCodeKey) == Some(ZipCodeMessage)
    ensures Lookup(ValidateAddress(f.(zipCode := 1000000)), ZipCodeKey) == Some(ZipCodeMessage)
  {
  }

  /** The create/update payload built from a validated form. */
  function Payload(f: AddressForm): (dto: AddressCuDto)
    ensures dto.addressId.None? <==> !HasNonEmptyId(f.addressId)
    ensures dto.addressId.Some? ==> dto.addressId == f.addressId
    ensures dto.zipCode == f.zipCode
    ensures dto.streetAddress == TrimOrNull(f.streetAddress)
    ensures dto.city == TrimOrNull(f.city)
    ensures dto.country == TrimOrNull(f.country)
  {
    AddressCuDto(
      if f.addressId == Some(EmptyGuid) then None else f.addressId,
      TrimOrNull(f.streetAddress),
      f.zipCode,
      TrimOrNull(f.city),
      TrimOrNull(f.country))
  }

  lemma TrimKeepsAcceptable(maxLength: nat, v: Option<string>)
    requires AcceptableText(maxLength, v)
    ensures AcceptableText(maxLength, TrimOrNull(v))
  {
    var s := v.value;
    TrimKeepsAddressChars(s);
    TrimIsEmptyIffBlank(s);
    var r := Trim(s);
    assert r != [];
    assert !IsWhiteSpace(r[0]);
  }

  /** What the service receives from a form that passed validation still
      satisfies the address invariant: trimming never empties, widens the
      character set of, or lengthens a field. */
  lemma PayloadKeepsInvariant(f: AddressForm)
    requires |ValidateAddress(f)| == 0
    ensures var dto := Payload(f);
            ValidAddressFields(dto.streetAddress, dto.zipCode, dto.city, dto.country)
  {
    ValidationMatchesInvariant(f);
    TrimKeepsAcceptable(StreetRule.maxLength, f.streetAddress);
    TrimKeepsAcceptable(CityRule.maxLength, f.city);
    TrimKeepsAcceptable(CountryRule.maxLength, f.country);
  }

  /** The form after the page has shown a loaded address: the address's id
      and fields, with the friend id the page was opened with kept. */
  function FormOf(a: Address, friendId: Option<Guid>): (f: AddressForm)
    ensures f.addressId == Some(a.addressId) && f.friendId == friendId
    ensures HasNonEmptyId(f.addressId) <==> a.addressId != EmptyGuid
    ensures (f.streetAddress, f.zipCode, f.city, f.country) == (a.streetAddress, a.zipCode, a.city, a.country)
  {
    AddressForm(Some(a.addressId), a.streetAddress, a.zipCode, a.city, a.country, friendId)
  }

  /** `OnGet(id)`. */
  function OnGet(p: AddressPage, id: Option<string>, tryParse: string -> Option<Guid>, read: Reply<Address>)
    : (h: Handled<AddressPage>)
    ensures h.outcome.Redirect? ==> h.outcome.target == Overview
    ensures h.calls == if !IsNullOrEmpty(id) && tryParse(id.value).Some?
                       then [ReadAddress(tryParse(id.value).value)] else []
  {
    if IsNullOrEmpty(id) then
      Handled(Page(p.(isNewAddress := true, address := None)), [])
    else match tryParse(id.value)
      case None => Handled(Redirect(Overview), [])
      case Some(g) =>
        var calls := [ReadAddress(g)];
        match read
        case Failed(_) => Handled(Page(p.(errorMessage := Some(LoadFailedMessage))), calls)
        case NotFound => Handled(Redirect(Overview), calls)
        case Found(a) =>
          Handled(Page(p.(address := Some(a), form := FormOf(a, p.form.friendId), isNewAddress := false)), calls)
  }

  /** The services' replies to the calls `OnPost` may issue, in order. */
  datatype AddressReplies = AddressReplies(
    readAddress: Reply<Address>,
    save: Reply<Address>,
    readFriend: Reply<Friend>,
    updateFriend: Reply<Friend>)

  /** The state the `catch` block leaves: the exception's message is shown,
      IsNewAddress is recomputed from the form's id, and nothing else changes. */
  function Crashed(p: AddressPage, message: string): (r: AddressPage)
    ensures r.errorMessage == Some(ErrorOccurred(message))
    ensures r.isNewAddress <==> !HasNonEmptyId(p.form.addressId)
    ensures r.form == p.form && r.address == p.address && r.validationErrors == p.validationErrors
  {
    p.(errorMessage := Some(ErrorOccurred(message)), isNewAddress := !HasNonEmptyId(p.form.addressId))
  }

  predicate IsAddressSave(c: Call) {
    c.CreateAddress? || c.UpdateAddress?
  }

  /** The call that saves a valid form: an update when the form carries a
      non-empty id, a create otherwise. */
  function SaveCall(f: AddressForm): (c: Call)
    ensures IsAddressSave(c) && c.addressDto == Payload(f)
    ensures c.UpdateAddress? <==> HasNonEmptyId(f.addressId)
    ensures c.UpdateAddress? <==> c.addressDto.addressId.Some?
  {
    if HasNonEmptyId(f.addressId) then UpdateAddress(Payload(f)) else CreateAddress(Payload(f))
  }

  /** Where a successful save redirects: the friend's details when the form
      came with a friend id, the overview otherwise. */
  function SavedTarget(f: AddressForm): (t: Target)
    ensures t.FriendDetails? <==> f.friendId.Some?
    ensures t.FriendDetails? ==> t.friendId == f.friendId.value
    ensures !t.FriendDetails? ==> t == Overview
  {
    if f.friendId.Some? then FriendDetails(f.friendId.value) else Overview
  }

  /** The payload that points the friend at the saved address: the friend
      written back unchanged except for its address id. */
  function RelinkPayload(friend: Friend, saved: Address): (dto: FriendCuDto)
    ensures dto.friendId == Some(friend.friendId)
    ensures dto.addressId == Some(saved.addressId)
    ensures dto.(addressId := AddressIdOf(friend)) == FriendPayloadOf(friend)
  {
    FriendPayloadOf(friend).(addressId := Some(saved.addressId))
  }

  /** The branch of `OnPost` taken when validation found errors: the form is
      shown again, with the stored address re-read when the form has an id. */
  function RedisplayInvalid(p: AddressPage, errs: map<string, string>, reply: Reply<Address>)
    : (h: Handled<AddressPage>)
    ensures h.outcome.Page?
    ensures h.calls == if HasNonEmptyId(p.form.addressId) then [ReadAddress(p.form.addressId.value)] else []
  {
    var isNew := !HasNonEmptyId(p.form.addressId);
    var shown := p.(validationErrors := errs, errorMessage := Some(CorrectFieldsMessage), isNewAddress := isNew);
    if isNew then Handled(Page(shown), [])
    else
      var calls := [ReadAddress(p.form.addressId.value)];
      match reply
      case Failed(m) => Handled(Page(Crashed(shown, m)), calls)
      case NotFound => Handled(Page(shown), calls)
      case Found(a) => Handled(Page(shown.(address := Some(a))), calls)
  }

  /** The steps after a save that returned an address: the optional friend
      re-link, then the redirect. */
  function AfterSave(p: AddressPage, save: Call, saved: Address, replies: AddressReplies)
    : (h: Handled<AddressPage>)
    ensures h.outcome.Redirect? ==> h.outcome.target == SavedTarget(p.form)
    ensures h.calls != [] && h.calls[0] == save
    ensures forall i :: 0 < i < |h.calls| ==> h.calls[i].ReadFriend? || h.calls[i].UpdateFriend?
  {
    var done := Redirect(SavedTarget(p.form));
    if p.isNewAddress && p.form.friendId.Some? then
      var read := ReadFriend(p.form.friendId.value);
      match replies.readFriend
      case Failed(m) => Handled(Page(Crashed(p, m)), [save, read])
      case NotFound => Handled(done, [save, read])
      case Found(friend) =>
        var link := UpdateFriend(RelinkPayload(friend, saved));
        if replies.updateFriend.Failed? then
          Handled(Page(Crashed(p, replies.updateFriend.message)), [save, read, link])
        else Handled(done, [save, read, link])
    else Handled(done, [save])
  }

  /** The branch of `OnPost` taken for a valid form: save, then re-link and
      redirect, or show why the save failed. */
  function SaveValid(p: AddressPage, replies: AddressReplies): (h: Handled<AddressPage>)
    ensures h.calls != [] && h.calls[0] == SaveCall(p.form)
    ensures forall i :: 0 < i < |h.calls| ==> h.calls[i].ReadFriend? || h.calls[i].UpdateFriend?
  {
    var save := SaveCall(p.form);
    match replies.save
    case Failed(m) => Handled(Page(Crashed(p, m)), [save])
    case NotFound => Handled(Page(p.(errorMessage := Some(SaveFailedMessage))), [save])
    case Found(saved) => AfterSave(p, save, saved, replies)
  }

  /** What `OnPost` does once `ValidateInput` has produced `errs`. */
  function Decide(p: AddressPage, errs: map<string, string>, replies: AddressReplies): (h: Handled<AddressPage>)
    ensures |errs| == 0 <==> h.calls != [] && IsAddressSave(h.calls[0])
    ensures forall i :: 0 < i < |h.calls| ==> !IsAddressSave(h.calls[i])
  {
    if |errs| > 0 then RedisplayInvalid(p, errs, replies.readAddress)
    else SaveValid(p.(validationErrors := errs), replies)
  }

  /** `OnPost()`: validate, then decide. A save call is issued exactly when
      validation found nothing, and it is the first and only save call. */
  function OnPost(p: AddressPage, replies: AddressReplies): (h: Handled<AddressPage>)
    ensures |ValidateAddress(p.form)| == 0 <==> h.calls != [] && IsAddressSave(h.calls[0])
    ensures forall i :: 0 < i < |h.calls| ==> !IsAddressSave(h.calls[i])
  {
    Decide(p, ValidateAddress(p.form), replies)
  }

  /** The cases of `OnGet`: an empty id opens a blank "new address" form
      without calling the service; a bad or unknown id goes back to the
      overview; a found address fills the form. */
  lemma GetOutcomes(p: AddressPage, id: Option<string>, tryParse: string -> Option<Guid>, read: Reply<Address>)
    ensures var h := OnGet(p, id, tryParse, read);
      && (IsNullOrEmpty(id) ==>
            h.calls == [] && h.outcome.Page? && h.outcome.state.isNewAddress && h.outcome.state.address.None?)
      && (!IsNullOrEmpty(id) && tryParse(id.value).None? ==> h == Handled(Redirect(Overview), []))
      && (!IsNullOrEmpty(id) && tryParse(id.value).Some? && read.NotFound? ==> h.outcome == Redirect(Overview))
      && (!IsNullOrEmpty(id) && tryParse(id.value).Some? && read.Found? ==>
            && h.outcome.Page?
            && h.outcome.state.address == Some(read.item)
            && h.outcome.state.form.addressId == Some(read.item.addressId)
            && h.outcome.state.form.streetAddress == read.item.streetAddress
            && h.outcome.state.form.zipCode == read.item.zipCode
            && h.outcome.state.form.city == read.item.city
            && h.outcome.state.form.country == read.item.country
            && !h.outcome.state.isNewAddress)
      && (!IsNullOrEmpty(id) && tryParse(id.value).Some? && read.Failed? ==>
            h.outcome == Page(p.(errorMessage := Some(LoadFailedMessage))))
  {
  }

  /** A form with validation errors is never saved: the page is shown again
      with the errors and the "correct the fields" message, and the stored
      address is re-read only when the form carries a non-empty id. */
  lemma InvalidPostNeverSaves(p: AddressPage, errs: map<string, string>, replies: AddressReplies)
    requires |errs| > 0
    ensures var h := Decide(p, errs, replies);
      && h.outcome.Page?
      && h.calls == (if HasNonEmptyId(p.form.addressId) then [ReadAddress(p.form.addressId.value)] else [])
      && (forall i :: 0 <= i < |h.calls| ==> !IsAddressSave(h.calls[i]))
      && h.outcome.state.validationErrors == errs
      && h.outcome.state.isNewAddress == !HasNonEmptyId(p.form.addressId)
      && (!(HasNonEmptyId(p.form.addressId) && replies.readAddress.Failed?) ==>
            h.outcome.state.errorMessage == Some(CorrectFieldsMessage))
      && h.outcome.state.address ==
           (if HasNonEmptyId(p.form.addressId) && replies.readAddress.Found?
            then Some(replies.readAddress.item) else p.address)
  {
  }

  /** The calls `OnPost` issues for a valid form, case by case: the save
      (an update exactly when the form carries a non-empty id, and then with
      the id in the payload), then the friend read and update of the re-link. */
  lemma ValidPostCalls(p: AddressPage, errs: map<string, string>, replies: AddressReplies)
    requires |errs| == 0
    ensures var h := Decide(p, errs, replies);
      && h.calls ==
           (if !replies.save.Found? || !p.isNewAddress || p.form.friendId.None? then [SaveCall(p.form)]
            else if !replies.readFriend.Found? then [SaveCall(p.form), ReadFriend(p.form.friendId.value)]
            else [SaveCall(p.form), ReadFriend(p.form.friendId.value),
                  UpdateFriend(RelinkPayload(replies.readFriend.item, replies.save.item))])
      && (h.calls[0].UpdateAddress? <==> HasNonEmptyId(p.form.addressId))
      && (h.calls[0].CreateAddress? <==> !HasNonEmptyId(p.form.addressId))
      && h.calls[0].addressDto == Payload(p.form)
      && (h.calls[0].addressDto.addressId.Some? <==> h.calls[0].UpdateAddress?)
  {
  }

  /** The friend re-link was attempted and an exception escaped it. */
  predicate RelinkFailed(p: AddressPage, replies: AddressReplies) {
    && p.isNewAddress && p.form.friendId.Some?
    && (replies.readFriend.Failed? || (replies.readFriend.Found? && replies.updateFriend.Failed?))
  }

  /** `OnPost` redirects exactly when the form was valid, the save returned
      an address and no exception escaped the re-link; the redirect goes to the
      friend's details when a friend id was given and to the overview
      otherwise. A save that returned nothing shows the "failed to save"
      message. */
  lemma PostRedirectsExactlyAfterSave(p: AddressPage, errs: map<string, string>, replies: AddressReplies)
    ensures var h := Decide(p, errs, replies);
      && (h.outcome.Redirect? <==> |errs| == 0 && replies.save.Found? && !RelinkFailed(p, replies))
      && (h.outcome.Redirect? ==>
            h.outcome.target == if p.form.friendId.Some? then FriendDetails(p.form.friendId.value) else Overview)
      && (|errs| == 0 && replies.save.NotFound? ==>
            h.outcome.Page? && h.outcome.state.errorMessage == Some(SaveFailedMessage) && |h.calls| == 1)
  {
  }

  /** The friend is re-linked (UpdateFriend is called) exactly when all four
      of these hold: IsNewAddress, a friend id, a saved address and a found
      friend; the update then points that friend at the saved address. */
  lemma RelinkExactlyWhenAllFour(p: AddressPage, errs: map<string, string>, replies: AddressReplies)
    ensures var h := Decide(p, errs, replies);
      && ((exists i :: 0 <= i < |h.calls| && h.calls[i].UpdateFriend?) <==>
            && |errs| == 0
            && p.isNewAddress
            && p.form.friendId.Some?
            && replies.save.Found?
            && replies.readFriend.Found?)
      && (forall i :: 0 <= i < |h.calls| && h.calls[i].UpdateFriend? ==>
            && i == 2
            && h.calls[1] == ReadFriend(p.form.friendId.value)
            && h.calls[i].friendDto.friendId == Some(replies.readFriend.item.friendId)
            && h.calls[i].friendDto.addressId == Some(replies.save.item.addressId))
  {
    var h := Decide(p, errs, replies);
    if |errs| > 0 {
      InvalidPostNeverSaves(p, errs, replies);
    } else {
      ValidPostCalls(p, errs, replies);
      if p.isNewAddress && p.form.friendId.Some? && replies.save.Found? && replies.readFriend.Found? {
        assert h.calls[2].UpdateFriend?;
      }
    }
  }

  /** The save and the re-link are not atomic: when the re-link throws, the
      page reports the error although the address was already saved. */
  lemma RelinkFailureAfterSave(p: AddressPage, errs: map<string, string>, replies: AddressReplies)
    requires |errs| == 0 && replies.save.Found? && RelinkFailed(p, replies)
    ensures var h := Decide(p, errs, replies);
      && h.outcome.Page?
      && h.calls[0] == SaveCall(p.form)
      && h.outcome.state.errorMessage.Some?
      && h.outcome.state.errorMessage != Some(SaveFailedMessage)
  {
    var m := if replies.readFriend.Failed? then replies.readFriend.message else replies.updateFriend.message;
    assert ErrorOccurred(m)[0] != SaveFailedMessage[0];
  }

  /** Opening a stored address that satisfies the invariant and is already
      trimmed, and submitting the form unchanged, sends an update of exactly
      that address. */
  lemma LoadThenSubmitUpdatesSameAddress(
    p: AddressPage, id: string, tryParse: string -> Option<Guid>, a: Address, replies: AddressReplies)
    requires id != "" && tryParse(id).Some?
    requires a.addressId != EmptyGuid
    requires ValidAddressFields(a.streetAddress, a.zipCode, a.city, a.country)
    requires TrimOrNull(a.streetAddress) == a.streetAddress
    requires TrimOrNull(a.city) == a.city
    requires TrimOrNull(a.country) == a.country
    ensures var loaded := OnGet(p, Some(id), tryParse, Found(a));
      && loaded.outcome.Page?
      && var h := OnPost(loaded.outcome.state, replies);
         && h.calls != []
         && h.calls[0] == UpdateAddress(AddressCuDto(Some(a.addressId), a.streetAddress, a.zipCode, a.city, a.country))
  {
    var loaded := OnGet(p, Some(id), tryParse, Found(a));
    var errs := ValidateAddress(loaded.outcome.state.form);
    ValidationMatchesInvariant(loaded.outcome.state.form);
    ValidPostCalls(loaded.outcome.state, errs, replies);
  }

  /** The page model as model binding leaves it at the start of a POST:
      IsNewAddress is not a bound property, so it keeps its default, false. */
  function BoundForPost(f: AddressForm): (p: AddressPage)
    ensures p.form == f && !p.isNewAddress
    ensures p.address.None? && p.errorMessage.None? && p.validationErrors == map[]
  {
    AddressPage(f, None, false, None, map[])
  }

  /** Without IsNewAddress nothing reads or updates a friend. */
  lemma NoRelinkUnlessNew(p: AddressPage, errs: map<string, string>, replies: AddressReplies)
    requires !p.isNewAddress
    ensures var h := Decide(p, errs, replies);
      forall i :: 0 <= i < |h.calls| ==> !h.calls[i].ReadFriend? && !h.calls[i].UpdateFriend?
  {
    if |errs| > 0 {
      InvalidPostNeverSaves(p, errs, replies);
    } else {
      ValidPostCalls(p, errs, replies);
    }
  }

  /** `OnPost` as the page runs it. Because `IsNewAddress` is never assigned
      before the re-link test, a POST never re-links a friend, even when it
      creates the address for that friend. */
  function OnPostAsWritten(f: AddressForm, replies: AddressReplies): (h: Handled<AddressPage>)
    ensures forall i :: 0 <= i < |h.calls| ==> !h.calls[i].ReadFriend? && !h.calls[i].UpdateFriend?
  {
    NoRelinkUnlessNew(BoundForPost(f), ValidateAddress(f), replies);
    OnPost(BoundForPost(f), replies)
  }

  /** The case the re-link exists for: a valid new address created for a
      friend who is found. As written, only the create call is issued. */
  lemma AsWrittenSkipsRelink(f: AddressForm, replies: AddressReplies)
    requires |ValidateAddress(f)| == 0 && !HasNonEmptyId(f.addressId) && f.friendId.Some?
    requires replies.save.Found? && replies.readFriend.Found?
    ensures OnPostAsWritten(f, replies).calls == [CreateAddress(Payload(f))]
  {
    ValidPostCalls(BoundForPost(f), ValidateAddress(f), replies);
  }

  /** `OnPost` with `IsNewAddress` computed from the form before the re-link
      test, as the validation-error and exception branches already compute it:
      the friend is re-linked exactly when the address was created (the form
      was valid and had no id), a friend id was given, the save returned the
      address and the friend was found. */
  function OnPostIntended(f: AddressForm, replies: AddressReplies): (h: Handled<AddressPage>)
    ensures h.calls != [] && h.calls[0].CreateAddress? ==> !HasNonEmptyId(f.addressId)
    ensures (exists i :: 0 <= i < |h.calls| && h.calls[i].UpdateFriend?) <==>
              && h.calls != [] && h.calls[0].CreateAddress?
              && f.friendId.Some?
              && replies.save.Found?
              && replies.readFriend.Found?
  {
    var p := BoundForPost(f).(isNewAddress := !HasNonEmptyId(f.addressId));
    RelinkExactlyAfterCreate(p, ValidateAddress(f), replies);
    OnPost(p, replies)
  }

  /** When `IsNewAddress` is computed from the id, a create comes only from a
      valid form without an id, and the friend is re-linked exactly after a
      create for a given, found friend. */
  lemma RelinkExactlyAfterCreate(p: AddressPage, errs: map<string, string>, replies: AddressReplies)
    requires p.isNewAddress == !HasNonEmptyId(p.form.addressId)
    ensures var h := Decide(p, errs, replies);
      && (h.calls != [] && h.calls[0].CreateAddress? ==> |errs| == 0 && !HasNonEmptyId(p.form.addressId))
      && ((exists i :: 0 <= i < |h.calls| && h.calls[i].UpdateFriend?) <==>
            && h.calls != [] && h.calls[0].CreateAddress?
            && p.form.friendId.Some?
            && replies.save.Found?
            && replies.readFriend.Found?)
  {
    RelinkExactlyWhenAllFour(p, errs, replies);
    if |errs| > 0 {
      InvalidPostNeverSaves(p, errs, replies);
    } else {
      ValidPostCalls(p, errs, replies);
    }
  }

  /** With the correction, creating an address for a found friend points that
      friend at the new address and then shows the friend's details. */
  lemma IntendedRelinksNewAddress(f: AddressForm, replies: AddressReplies)
    requires |ValidateAddress(f)| == 0 && !HasNonEmptyId(f.addressId) && f.friendId.Some?
    requires replies.save.Found? && replies.readFriend.Found? && !replies.updateFriend.Failed?
    ensures var h := OnPostIntended(f, replies);
      && h.calls == [CreateAddress(Payload(f)), ReadFriend(f.friendId.value),
                     UpdateFriend(RelinkPayload(replies.readFriend.item, replies.save.item))]
      && RelinkPayload(replies.readFriend.item, replies.save.item).addressId == Some(replies.save.item.addressId)
      && h.outcome == Redirect(FriendDetails(f.friendId.value))
  {
    var p := BoundForPost(f).(isNewAddress := true);
    ValidPostCalls(p, ValidateAddress(f), replies);
    PostRedirectsExactlyAfterSave(p, ValidateAddress(f), replies);
  }
}
