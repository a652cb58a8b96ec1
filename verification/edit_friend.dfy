/** The EditFriend page: field validation of a friend form, loading a friend
    into the form (`OnGet`) and saving it (`OnPost`). */
module EditFriend {
  import opened Nullable
  import opened Text
  import opened Model

  const FirstNameKey := "FirstName"
  const LastNameKey := "LastName"
  const EmailKey := "Email"
  const BirthdayKey := "Birthday"
  const FriendKeys: set<string> := {FirstNameKey, LastNameKey, EmailKey, BirthdayKey}

  /** The two ordered checks of a name field and their messages. */
  datatype NameRule = NameRule(maxLength: nat, required: string, tooLong: string)

  const FirstNameRule := NameRule(100, "First name is required.", "First name cannot exceed 100 characters.")
  const LastNameRule := NameRule(100, "Last name is required.", "Last name cannot exceed 100 characters.")
  const EmailMaxLength := 255
  const EmailRequiredMessage := "Email is required."
  const EmailInvalidMessage := "Email must be a valid email address."
  const EmailTooLongMessage := "Email cannot exceed 255 characters."
  const BirthdayFutureMessage := "Birthday must be in the past."
  const BirthdayTooEarlyMessage := "Birthday must be after 1900."
  const EarliestBirthYear := 1900
  const CorrectFieldsMessage := "Please correct the highlighted fields."
  const SaveFailedMessage := "Failed to save friend. Please try again."
  const LoadFailedMessage := "An error occurred while loading the friend details."

  /** A name the friend invariant accepts: present, not blank, and at most
      `maxLength` UTF-16 code units. */
  ghost predicate AcceptableName(maxLength: nat, v: Option<string>) {
    && v.Some?
    && (exists i :: 0 <= i < |v.value| && !IsWhiteSpace(v.value[i]))
    && Utf16Length(v.value) <= maxLength
  }

  /** An email the friend invariant accepts: present, of the shape
      `local@domain.tld`, and at most 255 UTF-16 code units. */
  ghost predicate AcceptableEmail(v: Option<string>) {
    && v.Some?
    && MatchesEmailPattern(v.value)
    && Utf16Length(v.value) <= EmailMaxLength
  }

  /** A birthday the friend invariant accepts: absent, or not after `now` and
      in year 1900 or later. */
  ghost predicate AcceptableBirthday(b: Option<DateTime>, now: DateTime) {
    b.Some? ==> !Later(b.value, now) && b.value.year >= EarliestBirthYear
  }

  /** The friend invariant: what a stored friend is meant to satisfy. */
  ghost predicate ValidFriendFields(
    first: Option<string>, last: Option<string>, email: Option<string>, birthday: Option<DateTime>, now: DateTime)
  {
    && AcceptableName(FirstNameRule.maxLength, first)
    && AcceptableName(LastNameRule.maxLength, last)
    && AcceptableEmail(email)
    && AcceptableBirthday(birthday, now)
  }

  /** The message of the first failing check of a name: required, then length. */
  function NameError(rule: NameRule, v: Option<string>): (m: Option<string>)
    ensures IsNullOrWhiteSpace(v) ==> m == Some(rule.required)
    ensures !IsNullOrWhiteSpace(v) && Utf16Length(v.value) > rule.maxLength ==> m == Some(rule.tooLong)
    ensures m.None? <==> AcceptableName(rule.maxLength, v)
  {
    if IsNullOrWhiteSpace(v) then Some(rule.required)
    else if Utf16Length(v.value) > rule.maxLength then Some(rule.tooLong)
    else None
  }

  /** An address the pattern accepts is never blank. */
  lemma EmailIsNotBlank(s: string)
    requires IsEmailAddress(s)
    ensures !AllWhiteSpace(s)
  {
    var c := if IsEmailCore(s) then s else s[..|s| - 1];
    EmailCoreHasNoWhiteSpace(c);
    assert s[0] == c[0];
  }

  lemma BlankIsNotEmail(v: Option<string>)
    requires IsNullOrWhiteSpace(v)
    ensures !AcceptableEmail(v)
  {
    if v.Some? {
      if IsEmailAddress(v.value) {
        EmailIsNotBlank(v.value);
      }
    }
  }

  /** The message of the first failing email check: required, then shape,
      then length. */
  function EmailError(v: Option<string>): (m: Option<string>)
    ensures IsNullOrWhiteSpace(v) ==> m == Some(EmailRequiredMessage)
    ensures !IsNullOrWhiteSpace(v) && !MatchesEmailPattern(v.value) ==> m == Some(EmailInvalidMessage)
    ensures (&& !IsNullOrWhiteSpace(v)
             && MatchesEmailPattern(v.value)
             && Utf16Length(v.value) > EmailMaxLength)
            ==> m == Some(EmailTooLongMessage)
    ensures m.None? <==> AcceptableEmail(v)
  {
    if IsNullOrWhiteSpace(v) then
      BlankIsNotEmail(v);
      Some(EmailRequiredMessage)
    else
      if !IsEmailAddress(v.value) then Some(EmailInvalidMessage)
      else if Utf16Length(v.value) > EmailMaxLength then Some(EmailTooLongMessage)
      else None
  }

  /** The message of the first failing birthday check: in the future, then
      before 1900. No birthday, no message. */
  function BirthdayError(b: Option<DateTime>, now: DateTime): (m: Option<string>)
    ensures b.Some? && Later(b.value, now) ==> m == Some(BirthdayFutureMessage)
    ensures b.Some? && !Later(b.value, now) && b.value.year < EarliestBirthYear ==> m == Some(BirthdayTooEarlyMessage)
    ensures m.None? <==> AcceptableBirthday(b, now)
  {
    if b.None? then None
    else if Later(b.value, now) then Some(BirthdayFutureMessage)
    else if b.value.year < EarliestBirthYear then Some(BirthdayTooEarlyMessage)
    else None
  }

  /** The page's bound properties. */
  datatype FriendForm = FriendForm(
    friendId: Option<Guid>,
    firstName: Option<string>,
    lastName: Option<string>,
    email: Option<string>,
    birthday: Option<DateTime>,
    addressId: Option<Guid>)

  /** The page model: the form plus the state a rendered page shows. */
  datatype FriendPage = FriendPage(
    form: FriendForm,
    friend: Option<Friend>,
    isNewFriend: bool,
    errorMessage: Option<string>,
    validationErrors: map<string, string>)

  /** `ValidateInput`, with `DateTime.Now` as the parameter `now`: the map
      starts empty and each field adds at most the message of its own first
      failing check. */
  function ValidateFriend(f: FriendForm, now: DateTime): (errs: map<string, string>)
    ensures errs.Keys <= FriendKeys
    ensures Lookup(errs, FirstNameKey) == NameError(FirstNameRule, f.firstName)
    ensures Lookup(errs, LastNameKey) == NameError(LastNameRule, f.lastName)
    ensures Lookup(errs, EmailKey) == EmailError(f.email)
    ensures Lookup(errs, BirthdayKey) == BirthdayError(f.birthday, now)
  {
    var first := NameError(FirstNameRule, f.firstName);
    var last := NameError(LastNameRule, f.lastName);
    var email := EmailError(f.email);
    var birthday := BirthdayError(f.birthday, now);
    FourEntries(FirstNameKey, LastNameKey, EmailKey, BirthdayKey, first, last, email, birthday);
    Entry(FirstNameKey, first) + Entry(LastNameKey, last) + Entry(EmailKey, email) + Entry(BirthdayKey, birthday)
  }

  /** The form passes validation exactly when its fields satisfy the friend
      invariant. */
  lemma ValidationMatchesInvariant(f: FriendForm, now: DateTime)
    ensures |ValidateFriend(f, now)| == 0
            <==> ValidFriendFields(f.firstName, f.lastName, f.email, f.birthday, now)
  {
    var errs := ValidateFriend(f, now);
    if |errs| == 0 {
      assert errs == map[];
    } else {
      var k :| k in errs;
      assert Lookup(errs, k).Some?;
    }
  }

  /** The create/update payload built from a validated form. */
  function Payload(f: FriendForm): (dto: FriendCuDto)
    ensures dto.friendId.None? <==> !HasNonEmptyId(f.friendId)
    ensures dto.friendId.Some? ==> dto.friendId == f.friendId
    ensures dto.firstName == TrimOrNull(f.firstName)
    ensures dto.lastName == TrimOrNull(f.lastName)
    ensures dto.email == TrimOrNull(f.email)
    ensures dto.birthday == f.birthday && dto.addressId == f.addressId
  {
    FriendCuDto(
      if f.friendId == Some(EmptyGuid) then None else f.friendId,
      TrimOrNull(f.firstName),
      TrimOrNull(f.lastName),
      TrimOrNull(f.email),
      f.birthday,
      f.addressId)
  }

  lemma TrimKeepsAcceptableName(maxLength: nat, v: Option<string>)
    requires AcceptableName(maxLength, v)
    ensures AcceptableName(maxLength, TrimOrNull(v))
  {
    TrimIsEmptyIffBlank(v.value);
    var r := Trim(v.value);
    assert !IsWhiteSpace(r[0]);
  }

  lemma TrimKeepsAcceptableEmail(v: Option<string>)
    requires AcceptableEmail(v)
    ensures AcceptableEmail(TrimOrNull(v))
  {
    var s := v.value;
    assert IsEmailAddress(s);
    TrimEmailAddress(s);
    assert IsEmailAddress(Trim(s));
  }

  /** What the service receives from a form that passed validation would
      itself pass the same validation. */
  lemma PayloadRevalidates(f: FriendForm, now: DateTime)
    requires |ValidateFriend(f, now)| == 0
    ensures var dto := Payload(f);
            ValidFriendFields(dto.firstName, dto.lastName, dto.email, dto.birthday, now)
  {
    ValidationMatchesInvariant(f, now);
    TrimKeepsAcceptableName(FirstNameRule.maxLength, f.firstName);
    TrimKeepsAcceptableName(LastNameRule.maxLength, f.lastName);
    TrimKeepsAcceptableEmail(f.email);
  }

  /** The form after the page has shown a loaded friend: it holds exactly what
      `new FriendCuDto(friend)` would write back, the address id included. */
  function FormOf(fr: Friend): (f: FriendForm)
    ensures FriendPayloadOf(fr) == FriendCuDto(f.friendId, f.firstName, f.lastName, f.email, f.birthday, f.addressId)
    ensures HasNonEmptyId(f.friendId) <==> fr.friendId != EmptyGuid
  {
    FriendForm(Some(fr.friendId), fr.firstName, fr.lastName, fr.email, fr.birthday, AddressIdOf(fr))
  }

  /** `OnGet(id)`. */
  function OnGet(p: FriendPage, id: Option<string>, tryParse: string -> Option<Guid>, read: Reply<Friend>)
    : (h: Handled<FriendPage>)
    ensures h.outcome.Redirect? ==> h.outcome.target == Overview
    ensures h.calls == if !IsNullOrEmpty(id) && tryParse(id.value).Some?
                       then [ReadFriend(tryParse(id.value).value)] else []
  {
    if IsNullOrEmpty(id) then
      Handled(Page(p.(isNewFriend := true, friend := None)), [])
    else match tryParse(id.value)
      case None => Handled(Redirect(Overview), [])
      case Some(g) =>
        var calls := [ReadFriend(g)];
        match read
        case Failed(_) => Handled(Page(p.(errorMessage := Some(LoadFailedMessage))), calls)
        case NotFound => Handled(Redirect(Overview), calls)
        case Found(fr) => Handled(Page(p.(friend := Some(fr), form := FormOf(fr), isNewFriend := false)), calls)
  }

  /** The services' replies to the calls `OnPost` may issue. */
  datatype FriendReplies = FriendReplies(readFriend: Reply<Friend>, save: Reply<Friend>)

  /** The state the `catch` block leaves: the exception's message is shown,
      IsNewFriend is recomputed from the form's id, and nothing else changes. */
  function Crashed(p: FriendPage, message: string): (r: FriendPage)
    ensures r.errorMessage == Some(ErrorOccurred(message))
    ensures r.isNewFriend <==> !HasNonEmptyId(p.form.friendId)
    ensures r.form == p.form && r.friend == p.friend && r.validationErrors == p.validationErrors
  {
    p.(errorMessage := Some(ErrorOccurred(message)), isNewFriend := !HasNonEmptyId(p.form.friendId))
  }

  predicate IsFriendSave(c: Call) {
    c.CreateFriend? || c.UpdateFriend?
  }

  /** The call that saves a valid form: an update when the form carries a
      non-empty id, a create otherwise, with the trimmed payload either way. */
  function SaveCall(f: FriendForm): (c: Call)
    ensures IsFriendSave(c) && c.friendDto == Payload(f)
    ensures c.UpdateFriend? <==> HasNonEmptyId(f.friendId)
    ensures c.UpdateFriend? <==> c.friendDto.friendId.Some?
  {
    if HasNonEmptyId(f.friendId) then UpdateFriend(Payload(f)) else CreateFriend(Payload(f))
  }

  /** The branch of `OnPost` taken when validation found errors: the form is
      shown again, with the stored friend re-read when the form has an id. */
  function RedisplayInvalid(p: FriendPage, errs: map<string, string>, reply: Reply<Friend>)
    : (h: Handled<FriendPage>)
    ensures h.outcome.Page?
    ensures h.outcome.state.validationErrors == errs
    ensures h.calls == if HasNonEmptyId(p.form.friendId) then [ReadFriend(p.form.friendId.value)] else []
  {
    var isNew := !HasNonEmptyId(p.form.friendId);
    var shown := p.(validationErrors := errs, errorMessage := Some(CorrectFieldsMessage), isNewFriend := isNew);
    if isNew then Handled(Page(shown), [])
    else
      var calls := [ReadFriend(p.form.friendId.value)];
      match reply
      case Failed(m) => Handled(Page(Crashed(shown, m)), calls)
      case NotFound => Handled(Page(shown), calls)
      case Found(fr) =>
        Handled(Page(shown.(friend := Some(fr), form := shown.form.(addressId := AddressIdOf(fr)))), calls)
  }

  /** The branch of `OnPost` taken for a valid form: one save call, then
      the friend's details or the reason the save failed. */
  function SaveValid(p: FriendPage, replies: FriendReplies): (h: Handled<FriendPage>)
    ensures h.calls == [SaveCall(p.form)]
    ensures h.outcome.Redirect? <==> replies.save.Found?
  {
    var save := SaveCall(p.form);
    match replies.save
    case Failed(m) => Handled(Page(Crashed(p, m)), [save])
    case NotFound => Handled(Page(p.(errorMessage := Some(SaveFailedMessage))), [save])
    case Found(saved) => Handled(Redirect(FriendDetails(saved.friendId)), [save])
  }

  /** What `OnPost` does once `ValidateInput` has produced `errs`. */
  function Decide(p: FriendPage, errs: map<string, string>, replies: FriendReplies): (h: Handled<FriendPage>)
    ensures |errs| == 0 <==> h.calls != [] && IsFriendSave(h.calls[0])
    ensures forall i :: 0 < i < |h.calls| ==> !IsFriendSave(h.calls[i])
    ensures h.outcome.Redirect? ==> |errs| == 0 && replies.save.Found?
  {
    if |errs| > 0 then RedisplayInvalid(p, errs, replies.readFriend)
    else SaveValid(p.(validationErrors := errs), replies)
  }

  /** `OnPost()`, with `DateTime.Now` as the parameter `now`: a save call is
      issued exactly when validation found nothing, and only then can the
      page redirect. */
  function OnPost(p: FriendPage, now: DateTime, replies: FriendReplies): (h: Handled<FriendPage>)
    ensures |ValidateFriend(p.form, now)| == 0 <==> h.calls != [] && IsFriendSave(h.calls[0])
    ensures forall i :: 0 < i < |h.calls| ==> !IsFriendSave(h.calls[i])
    ensures h.outcome.Redirect? ==> |ValidateFriend(p.form, now)| == 0 && replies.save.Found?
  {
    Decide(p, ValidateFriend(p.form, now), replies)
  }

  /** The page model as a request finds it before `OnGet`: nothing bound. */
  const FreshPage := FriendPage(FriendForm(None, None, None, None, None, None), None, false, None, map[])

  /** The cases of `OnGet`: an empty id opens a blank "new friend" form
      without calling the service; a bad or unknown id goes back to the
      overview; a found friend fills the form, its address id taken from the
      friend's address. */
  lemma GetOutcomes(p: FriendPage, id: Option<string>, tryParse: string -> Option<Guid>, read: Reply<Friend>)
    ensures var h := OnGet(p, id, tryParse, read);
      && (IsNullOrEmpty(id) ==>
            h.calls == [] && h.outcome.Page? && h.outcome.state.isNewFriend && h.outcome.state.friend.None?)
      && (IsNullOrEmpty(id) && p == FreshPage ==>
            h.outcome.state.form == FriendForm(None, None, None, None, None, None))
      && (!IsNullOrEmpty(id) && tryParse(id.value).None? ==> h == Handled(Redirect(Overview), []))
      && (!IsNullOrEmpty(id) && tryParse(id.value).Some? && read.NotFound? ==> h.outcome == Redirect(Overview))
      && (!IsNullOrEmpty(id) && tryParse(id.value).Some? && read.Found? ==>
            && h.outcome.Page?
            && h.outcome.state.friend == Some(read.item)
            && h.outcome.state.form.friendId == Some(read.item.friendId)
            && h.outcome.state.form.firstName == read.item.firstName
            && h.outcome.state.form.lastName == read.item.lastName
            && h.outcome.state.form.email == read.item.email
            && h.outcome.state.form.birthday == read.item.birthday
            && h.outcome.state.form.addressId ==
                 (if read.item.address.Some? then Some(read.item.address.value.addressId) else None)
            && !h.outcome.state.isNewFriend)
      && (!IsNullOrEmpty(id) && tryParse(id.value).Some? && read.Failed? ==>
            h.outcome == Page(p.(errorMessage := Some(LoadFailedMessage))))
  {
  }

  /** A form with validation errors is never saved: the page is shown again
      with the errors, and the stored friend (and its address id) is re-read
      only when the form carries a non-empty id. */
  lemma InvalidPostNeverSaves(p: FriendPage, errs: map<string, string>, replies: FriendReplies)
    requires |errs| > 0
    ensures var h := Decide(p, errs, replies);
      && h.outcome.Page?
      && h.calls == (if HasNonEmptyId(p.form.friendId) then [ReadFriend(p.form.friendId.value)] else [])
      && (forall i :: 0 <= i < |h.calls| ==> !IsFriendSave(h.calls[i]))
      && h.outcome.state.validationErrors == errs
      && h.outcome.state.isNewFriend == !HasNonEmptyId(p.form.friendId)
      && (!(HasNonEmptyId(p.form.friendId) && replies.readFriend.Failed?) ==>
            h.outcome.state.errorMessage == Some(CorrectFieldsMessage))
      && (if HasNonEmptyId(p.form.friendId) && replies.readFriend.Found?
          then && h.outcome.state.friend == Some(replies.readFriend.item)
               && h.outcome.state.form.addressId == AddressIdOf(replies.readFriend.item)
          else h.outcome.state.friend == p.friend && h.outcome.state.form == p.form)
  {
  }

  /** A valid form is sent once, as an update exactly when the form carries a
      non-empty id and as a create otherwise; the payload carries the id
      exactly in the update case. */
  lemma ValidPostDispatch(p: FriendPage, errs: map<string, string>, replies: FriendReplies)
    requires |errs| == 0
    ensures var h := Decide(p, errs, replies);
      && |h.calls| == 1
      && (h.calls[0].UpdateFriend? <==> HasNonEmptyId(p.form.friendId))
      && (h.calls[0].CreateFriend? <==> !HasNonEmptyId(p.form.friendId))
      && h.calls[0].friendDto == Payload(p.form)
      && (h.calls[0].friendDto.friendId.Some? <==> h.calls[0].UpdateFriend?)
  {
  }

  /** `OnPost` redirects exactly when the form was valid and the save returned
      a friend, and then to the details of the friend the service returned; a
      save that returned nothing shows the "failed to save" message. */
  lemma PostRedirectsExactlyAfterSave(p: FriendPage, errs: map<string, string>, replies: FriendReplies)
    ensures var h := Decide(p, errs, replies);
      && (h.outcome.Redirect? <==> |errs| == 0 && replies.save.Found?)
      && (h.outcome.Redirect? ==> h.outcome.target == FriendDetails(replies.save.item.friendId))
      && (|errs| == 0 && replies.save.NotFound? ==>
            h.outcome.Page? && h.outcome.state.errorMessage == Some(SaveFailedMessage))
  {
  }

  /** The friend as a service that stores a payload faithfully returns it. */
  ghost predicate StoresPayload(saved: Friend, dto: FriendCuDto) {
    && saved.firstName == dto.firstName
    && saved.lastName == dto.lastName
    && saved.email == dto.email
    && saved.birthday == dto.birthday
  }

  /** Creating a friend from a form that satisfies the friend invariant (which
      is what passing validation means) and then opening the returned id
      shows the submitted names and email (trimmed) and birthday, and that
      form passes validation again. */
  lemma CreateThenLoadRoundTrip(
    p: FriendPage, now: DateTime, replies: FriendReplies,
    q: FriendPage, id: string, tryParse: string -> Option<Guid>)
    requires ValidFriendFields(p.form.firstName, p.form.lastName, p.form.email, p.form.birthday, now)
    requires !HasNonEmptyId(p.form.friendId)
    requires replies.save.Found? && StoresPayload(replies.save.item, Payload(p.form))
    requires id != "" && tryParse(id) == Some(replies.save.item.friendId)
    ensures OnPost(p, now, replies).outcome == Redirect(FriendDetails(replies.save.item.friendId))
    ensures var loaded := OnGet(q, Some(id), tryParse, replies.save);
      && loaded.calls == [ReadFriend(replies.save.item.friendId)]
      && loaded.outcome.Page?
      && loaded.outcome.state.form.firstName == TrimOrNull(p.form.firstName)
      && loaded.outcome.state.form.lastName == TrimOrNull(p.form.lastName)
      && loaded.outcome.state.form.email == TrimOrNull(p.form.email)
      && loaded.outcome.state.form.birthday == p.form.birthday
      && |ValidateFriend(loaded.outcome.state.form, now)| == 0
  {
    var loaded := OnGet(q, Some(id), tryParse, replies.save);
    ValidationMatchesInvariant(p.form, now);
    PostRedirectsExactlyAfterSave(p, ValidateFriend(p.form, now), replies);
    PayloadRevalidates(p.form, now);
    ValidationMatchesInvariant(loaded.outcome.state.form, now);
  }

  /** Boundaries of the birthday rule: 1 January 1900 is accepted whenever it
      is not after `now`; the last moment of 1899 is refused. */
  lemma BirthdayBoundaries(f: FriendForm, now: DateTime)
    requires !Later(DateTime(1900, 1, 1, 0), now)
    ensures BirthdayKey !in ValidateFriend(f.(birthday := Some(DateTime(1900, 1, 1, 0))), now)
    ensures Lookup(ValidateFriend(f.(birthday := Some(DateTime(1899, 12, 31, 863_999_999_999))), now), BirthdayKey)
            == Some(BirthdayTooEarlyMessage)
  {
  }
}
