# GoodFriends Razor page handlers, modelled in Dafny

This project models the server-side logic of three Razor pages of the
GoodFriends web application, and proves properties of that model:

- **EditAddress** (`AppRazor/Pages/EditAddress.cshtml.cs`):
  - `ValidateInput`: street, city and country must be non-blank, letters/digits/whitespace only, and within a length limit; the zip code must lie in 0..999999.
  - `OnGet`: load an address into the form, or open a blank "new address" form.
  - `OnPost`: validate, build the trimmed `AddressCuDto`, then update or create it. On success it redirects to the friend's details or to the overview. The code that would re-link a friend to a newly created address is guarded by `IsNewAddress`. That property is not bound from the form, so a POST always leaves it false, and as written the re-link never runs (see "## Findings"). `EditAddress.OnPostAsWritten` models that behaviour. The re-link itself is proved only for `EditAddress.OnPostIntended`, which computes the flag from the form's id.
- **EditFriend** (`AppRazor/Pages/Friends/EditFriend.cshtml.cs`):
  - `ValidateInput`: names are required and at most 100 characters; the email is required, must match `^[^\s@]+@[^\s@]+\.[^\s@]+$` and is at most 255 characters; the birthday, when given, is not in the future and not before 1900.
  - `OnGet` and `OnPost`: the create/update flow, ending in a redirect to the saved friend's details.
- **Details** (`AppRazor/Pages/Friends/Details.cshtml.cs`):
  - `OnGet`: show one friend.
  - `OnPostDeletePetAsync` and `OnPostDeleteQuoteAsync`: validate the id, call the service, and always return to the same page. The service's reply only chooses a log line, so the model does not take it as an input.

How the model represents the program:

- A handler is a pure function. It takes the page model as model binding leaves it, the handler's arguments, and the replies of the services it calls. It returns a `Handled` value: the outcome (`Page(state)` or `Redirect(target)`) plus the sequence of service calls it issued.
- A service reply is `Found(item)`, `NotFound` (a null response or null `Item`) or `Failed(message)`. `Failed` stands for an exception, which sends the handler into its `catch` block.
- C# `null` is `Option`.
- `string.Length` counts UTF-16 code units, so a character outside the Basic Multilingual Plane counts two.
- `char.IsWhiteSpace` and the regex class `\s` are the same explicit table.
- The two regular expressions are hand-written matchers. Each is proved equal to a declarative reading of its pattern.
- `Guid.TryParse` and `DateTime.Now` are parameters.

Modules:

- `Nullable`: `Option`.
- `Model`: identifiers, dates, entities, DTOs, replies, calls and outcomes.
- `Text`: whitespace, `Trim`, `Length` and the two matchers.
- One module per page: `EditAddress`, `EditFriend` and `Details`.

## Model

| member | source | states |
|---|---|---|
| Model.HasNonEmptyId | AppRazor/Pages/EditAddress.cshtml.cs:116 | `AddressId.HasValue && AddressId != Guid.Empty`, the test that picks update over create. AppRazor/Pages/Friends/EditFriend.cshtml.cs:118 applies it to the friend id, and both `catch` blocks negate it |
| Model.Later | AppRazor/Pages/Friends/EditFriend.cshtml.cs:192 | `Birthday.Value > DateTime.Now`: year, then month, then day, then time of day decides |
| Model.LaterIsStrictTotalOrder | AppRazor/Pages/Friends/EditFriend.cshtml.cs:192 | the comparison is irreflexive and transitive, and of two distinct points in time exactly one is later |
| Model.AddressIdOf | AppRazor/Pages/Friends/EditFriend.cshtml.cs:71 | `Friend.Address?.AddressId`: no id when the friend has no address |
| Text.IsWhiteSpace | AppRazor/Pages/EditAddress.cshtml.cs:179 | `char.IsWhiteSpace`, which is also the regex class `\s`: every whitespace character lies in the Basic Multilingual Plane, and no ASCII letter or digit, '@' or '.' is whitespace |
| Text.IsNullOrEmpty | AppRazor/Pages/Friends/Details.cshtml.cs:22 | null, or a `Length` of zero; such a value is also null or whitespace. The same test opens Details.cshtml.cs lines 49 and 78, EditAddress.cshtml.cs line 44 and EditFriend.cshtml.cs line 43 |
| Text.IsNullOrWhiteSpace | AppRazor/Pages/EditAddress.cshtml.cs:175 | null, or every character whitespace. The same test guards EditAddress.cshtml.cs lines 189 and 209 and EditFriend.cshtml.cs lines 156, 166 and 176 |
| Text.NullOrWhiteSpaceTrimsToEmpty | AppRazor/Pages/EditAddress.cshtml.cs:175 | a value is null or whitespace exactly when it is null or trims to the empty string |
| Text.TrimOrNull | AppRazor/Pages/EditAddress.cshtml.cs:110-113 | `s?.Trim()`: null stays null and a string is trimmed; the result is null or empty exactly when the input is null or whitespace |
| Text.Trim | AppRazor/Pages/EditAddress.cshtml.cs:110-113 | `s?.Trim()` returns a contiguous part of `s` with only whitespace cut off on either side; the result neither starts nor ends with whitespace and is no longer in UTF-16 units than `s` |
| Text.TrimIsEmptyIffBlank | AppRazor/Pages/EditAddress.cshtml.cs:110-113 | trimming gives the empty string exactly when the input is all whitespace, which is what `IsNullOrWhiteSpace` tests |
| Text.TrimIdempotent | AppRazor/Pages/Friends/EditFriend.cshtml.cs:111-113 | trimming an already trimmed value changes nothing |
| Text.TrimOfUnpadded | AppRazor/Pages/Friends/EditFriend.cshtml.cs:111-113 | a value with no whitespace at either end is its own trim |
| Text.TrimDropsFinalNewline | AppRazor/Pages/Friends/EditFriend.cshtml.cs:113 | a value without whitespace, followed by one "\n", trims back to the value |
| Text.PaddingIsWhiteSpace | AppRazor/Pages/EditAddress.cshtml.cs:110-113 | every non-whitespace character lies inside the trimmed part |
| Text.Utf16Length | AppRazor/Pages/EditAddress.cshtml.cs:183 | `Length` lies between the number of characters and twice that number |
| Text.Utf16LengthOfBmp | AppRazor/Pages/EditAddress.cshtml.cs:183 | within the Basic Multilingual Plane, `Length` equals the number of characters |
| Text.Utf16LengthAppend | AppRazor/Pages/EditAddress.cshtml.cs:183 | the length of a concatenation is the sum of the lengths |
| Text.HasDisallowedChar | AppRazor/Pages/EditAddress.cshtml.cs:179 | `Regex.IsMatch(s, @"[^a-zA-Z0-9\s]")` is true exactly when some character lies outside ASCII letters, digits and whitespace |
| Text.TrimKeepsAddressChars | AppRazor/Pages/EditAddress.cshtml.cs:179 | trimming a value of only letters, digits and whitespace leaves such a value |
| Text.IsEmailAddress | AppRazor/Pages/Friends/EditFriend.cshtml.cs:180 | the matcher for `^[^\s@]+@[^\s@]+\.[^\s@]+$` accepts exactly the strings that split into three non-empty runs without whitespace or '@', joined by '@' and '.'. The final-newline case of .NET's `$` is included |
| Text.EmailCoreHasNoWhiteSpace | AppRazor/Pages/Friends/EditFriend.cshtml.cs:180 | an address the pattern accepts without the final-newline allowance holds no whitespace |
| Text.TrimEmailAddress | AppRazor/Pages/Friends/EditFriend.cshtml.cs:180 | the trim of an accepted email is accepted without the final-newline allowance |
| EditAddress.TextFieldError | AppRazor/Pages/EditAddress.cshtml.cs:174-186 | the first failing check wins: required, then character set, then length. No message means the field satisfies the address invariant |
| EditAddress.ZipCodeError | AppRazor/Pages/EditAddress.cshtml.cs:202-206 | there is no message exactly when the zip code lies in 0..999999 |
| EditAddress.ValidateAddress | AppRazor/Pages/EditAddress.cshtml.cs:170-221 | the error map has keys only among the four field names, and each key holds exactly its own field's first failing message |
| EditAddress.ValidationMatchesInvariant | AppRazor/Pages/EditAddress.cshtml.cs:170-221 | the error map is empty exactly when all four fields satisfy the address invariant |
| EditAddress.ZipCodeBoundaries | AppRazor/Pages/EditAddress.cshtml.cs:203-206 | 0 and 999999 are accepted; -1 and 1000000 get the zip code message |
| EditAddress.Payload | AppRazor/Pages/EditAddress.cshtml.cs:107-114 | the payload has no id exactly when the form has no non-empty id, the text fields are trimmed, and the zip code is copied |
| EditAddress.TrimKeepsAcceptable | AppRazor/Pages/EditAddress.cshtml.cs:110-113 | trimming an acceptable text field leaves it acceptable |
| EditAddress.PayloadKeepsInvariant | AppRazor/Pages/EditAddress.cshtml.cs:107-114 | the payload of a form that passed validation satisfies the address invariant |
| EditAddress.FormOf | AppRazor/Pages/EditAddress.cshtml.cs:66-71 | a loaded address fills the form's id and four fields, and the friend id the page was opened with is kept; the form has a non-empty id exactly when the address's id is not `Guid.Empty` |
| EditAddress.OnGet | AppRazor/Pages/EditAddress.cshtml.cs:40-82 | every redirect goes to the overview; one read of the parsed id is issued exactly when the id is non-empty and parses, and no call otherwise |
| EditAddress.GetOutcomes | AppRazor/Pages/EditAddress.cshtml.cs:44-81 | the cases of `OnGet`: an empty id gives a new-address form with no call; a bad id or a missing address redirects; a found address fills the form; an exception shows the load-failure message |
| EditAddress.Crashed | AppRazor/Pages/EditAddress.cshtml.cs:161-167 | the `catch` block shows "An error occurred: " followed by the exception's message, recomputes `IsNewAddress` from the form's id, and changes nothing else |
| EditAddress.SaveCall | AppRazor/Pages/EditAddress.cshtml.cs:116-118 | an update exactly when the form's id is non-empty, a create otherwise; the payload is the trimmed form either way, and it carries an id exactly when the call is an update |
| EditAddress.SavedTarget | AppRazor/Pages/EditAddress.cshtml.cs:148-155 | the friend's details exactly when a friend id came with the form, the overview otherwise |
| EditAddress.RelinkPayload | AppRazor/Pages/EditAddress.cshtml.cs:130-133 | the friend written back as `new FriendCuDto(friend)` writes it, with only the address id replaced by the saved address's id |
| EditAddress.RedisplayInvalid | AppRazor/Pages/EditAddress.cshtml.cs:91-104 | the invalid branch always shows the page; it re-reads the address only when the form has a non-empty id |
| EditAddress.AfterSave | AppRazor/Pages/EditAddress.cshtml.cs:120-156 | after a successful save, a redirect goes to the friend's details or to the overview; only friend reads and updates follow the save |
| EditAddress.SaveValid | AppRazor/Pages/EditAddress.cshtml.cs:107-159 | a valid form's first call is the save chosen by its id, and no other save follows |
| EditAddress.Decide | AppRazor/Pages/EditAddress.cshtml.cs:91-159 | a save is issued first exactly when the error map is empty, and there is never a second save |
| EditAddress.OnPost | AppRazor/Pages/EditAddress.cshtml.cs:84-168 | a save call is issued exactly when validation passes; it is the first call, and the only save |
| EditAddress.InvalidPostNeverSaves | AppRazor/Pages/EditAddress.cshtml.cs:91-104 | with validation errors: no save, the page is shown with the errors and the "correct the fields" message, `IsNewAddress` is computed from the id, and the address is re-read only for a non-empty id |
| EditAddress.ValidPostCalls | AppRazor/Pages/EditAddress.cshtml.cs:107-136 | a valid form gives this exact call sequence: update (id non-empty) or create; then, if needed, the friend read and the update re-linking the friend. The payload carries an id exactly for an update |
| EditAddress.PostRedirectsExactlyAfterSave | AppRazor/Pages/EditAddress.cshtml.cs:120-159 | it redirects exactly when the form is valid, the save returns an address and no exception escapes the re-link; the target is chosen by the friend id; a save returning nothing shows the "failed to save" message |
| EditAddress.RelinkExactlyWhenAllFour | AppRazor/Pages/EditAddress.cshtml.cs:124-136 | the friend is updated exactly when the form is valid, `IsNewAddress` holds, a friend id is given, the save succeeds and the friend is found. The update is the third call, and points that friend at the saved address |
| EditAddress.RelinkFailureAfterSave | AppRazor/Pages/EditAddress.cshtml.cs:124-166 | when the re-link throws, the address has already been saved, yet the page shows an error other than "failed to save" |
| EditAddress.LoadThenSubmitUpdatesSameAddress | AppRazor/Pages/EditAddress.cshtml.cs:59-118 | loading a stored valid, trimmed address and submitting the form unchanged sends an update of exactly that address |
| EditAddress.BoundForPost | AppRazor/Pages/EditAddress.cshtml.cs:31-35 | at the start of a POST the form holds the bound values and `IsNewAddress` is false, because it has no `[BindProperty]`; this is what makes line 125 false |
| EditAddress.NoRelinkUnlessNew | AppRazor/Pages/EditAddress.cshtml.cs:125 | without `IsNewAddress`, no friend is read or updated |
| EditAddress.OnPostAsWritten | AppRazor/Pages/EditAddress.cshtml.cs:84-168 | as written, with `IsNewAddress` left at its unbound default: `OnPost` never reads or updates a friend |
| EditAddress.AsWrittenSkipsRelink | AppRazor/Pages/EditAddress.cshtml.cs:124-136 | creating a valid address for a friend who exists issues only the create call |
| EditAddress.OnPostIntended | AppRazor/Pages/EditAddress.cshtml.cs:84-168 | corrected handler, with `IsNewAddress` computed from the id. A create call comes only from a form without a non-empty id. The friend is updated exactly when the address was created, a friend id is given, the save returns the address and the friend is found |
| EditAddress.RelinkExactlyAfterCreate | AppRazor/Pages/EditAddress.cshtml.cs:116-136 | when `IsNewAddress` reflects the id: a create comes only from a valid form without an id, and the friend is re-linked exactly after a create for a given friend who is found |
| EditAddress.IntendedRelinksNewAddress | AppRazor/Pages/EditAddress.cshtml.cs:124-155 | corrected: create, read the friend, update the friend to point at the new address, then go to the friend's details |
| EditFriend.NameError | AppRazor/Pages/Friends/EditFriend.cshtml.cs:155-173 | required, then length; no message exactly when the name satisfies the friend invariant |
| EditFriend.EmailError | AppRazor/Pages/Friends/EditFriend.cshtml.cs:175-187 | required, then pattern, then length; no message exactly when the email is present, matches the pattern and is at most 255 units long |
| EditFriend.BlankIsNotEmail | AppRazor/Pages/Friends/EditFriend.cshtml.cs:176-183 | a blank email never matches the pattern, so the "required" check subsumes the pattern on blanks |
| EditFriend.BirthdayError | AppRazor/Pages/Friends/EditFriend.cshtml.cs:189-200 | no birthday, no message; otherwise "in the past" is checked before "after 1900"; no message exactly when the birthday is acceptable |
| EditFriend.ValidateFriend | AppRazor/Pages/Friends/EditFriend.cshtml.cs:151-201 | the error map has keys only among the four field names, each holding its own field's first failing message |
| EditFriend.ValidationMatchesInvariant | AppRazor/Pages/Friends/EditFriend.cshtml.cs:151-201 | the error map is empty exactly when the fields satisfy the friend invariant |
| EditFriend.BirthdayBoundaries | AppRazor/Pages/Friends/EditFriend.cshtml.cs:190-199 | 1 January 1900 is accepted when not after now; the last tick of 1899 is refused as too early |
| EditFriend.Payload | AppRazor/Pages/Friends/EditFriend.cshtml.cs:108-116 | the payload has no id exactly when the form has no non-empty id; names and email are trimmed; birthday and address id are copied |
| EditFriend.TrimKeepsAcceptableName | AppRazor/Pages/Friends/EditFriend.cshtml.cs:111-112 | trimming an acceptable name leaves it acceptable |
| EditFriend.TrimKeepsAcceptableEmail | AppRazor/Pages/Friends/EditFriend.cshtml.cs:113 | trimming an acceptable email leaves it acceptable |
| EditFriend.PayloadRevalidates | AppRazor/Pages/Friends/EditFriend.cshtml.cs:108-116 | the payload of a form that passed validation satisfies the friend invariant |
| EditFriend.FormOf | AppRazor/Pages/Friends/EditFriend.cshtml.cs:65-71 | a loaded friend fills every form field, and the form holds exactly what `new FriendCuDto(friend)` would write back, the address id included |
| EditFriend.OnGet | AppRazor/Pages/Friends/EditFriend.cshtml.cs:39-82 | every redirect goes to the overview; one read of the parsed id is issued exactly when the id is non-empty and parses, and no call otherwise |
| EditFriend.GetOutcomes | AppRazor/Pages/Friends/EditFriend.cshtml.cs:43-81 | the cases of `OnGet`, including a found friend filling every form field, the address id included |
| EditFriend.Crashed | AppRazor/Pages/Friends/EditFriend.cshtml.cs:142-148 | the `catch` block shows "An error occurred: " followed by the exception's message, recomputes `IsNewFriend` from the form's id, and changes nothing else |
| EditFriend.SaveCall | AppRazor/Pages/Friends/EditFriend.cshtml.cs:118-120 | an update exactly when the form's id is non-empty, a create otherwise; the payload is the trimmed form either way, and it carries an id exactly when the call is an update |
| EditFriend.RedisplayInvalid | AppRazor/Pages/Friends/EditFriend.cshtml.cs:91-105 | the invalid branch shows the page with the errors and re-reads the friend only for a non-empty id |
| EditFriend.SaveValid | AppRazor/Pages/Friends/EditFriend.cshtml.cs:118-140 | a valid form gives exactly one save call, and it redirects exactly when the save returns a friend |
| EditFriend.Decide | AppRazor/Pages/Friends/EditFriend.cshtml.cs:91-140 | a save is issued first exactly when the error map is empty; no second save; a redirect needs no errors and a saved friend |
| EditFriend.OnPost | AppRazor/Pages/Friends/EditFriend.cshtml.cs:84-149 | a save call is issued exactly when validation passes, and is the only save; a redirect happens only after a successful save |
| EditFriend.InvalidPostNeverSaves | AppRazor/Pages/Friends/EditFriend.cshtml.cs:91-105 | with validation errors: no save, errors and message shown, `IsNewFriend` computed from the id; the friend and its address id are refreshed only for a non-empty id that is found |
| EditFriend.ValidPostDispatch | AppRazor/Pages/Friends/EditFriend.cshtml.cs:107-120 | a valid form is sent once: update exactly for a non-empty id, create otherwise; the payload carries the id exactly for an update |
| EditFriend.PostRedirectsExactlyAfterSave | AppRazor/Pages/Friends/EditFriend.cshtml.cs:122-140 | it redirects exactly when the form is valid and the save returns a friend, and goes to that friend's details; a save returning nothing shows "failed to save" |
| EditFriend.CreateThenLoadRoundTrip | AppRazor/Pages/Friends/EditFriend.cshtml.cs:108-136 | creating a friend and opening the returned id shows the trimmed names and email and the same birthday; the loaded form passes validation again |
| Details.ParseId | AppRazor/Pages/Friends/Details.cshtml.cs:22 | an id is obtained exactly when the string is non-empty and parses |
| Details.OnGet | AppRazor/Pages/Friends/Details.cshtml.cs:18-43 | the page is shown exactly when the id parses and the friend is found; everything else, an exception included, redirects to the overview; one read is issued exactly for a parsed id |
| Details.OnPostDeletePet | AppRazor/Pages/Friends/Details.cshtml.cs:45-72 | every path returns to this page with the friend id as given; one delete is issued exactly for a parsed pet id |
| Details.OnPostDeleteQuote | AppRazor/Pages/Friends/Details.cshtml.cs:74-101 | every path returns to this page with the friend id as given; one delete is issued exactly for a parsed quote id |
| Details.BadIdDeletesNothing | AppRazor/Pages/Friends/Details.cshtml.cs:49-53 | an empty or unparsable pet or quote id issues no call |

## Left out

- Logging (`_logger`): it has no effect on outcomes.
- `ShowSuccessMessage`, and the copy of the saved entity back into the form after a successful save: both are discarded by the redirect that always follows.
- Razor rendering, routing, anti-forgery and model binding: the handlers start from the bound page model.
- The Overview and ViewFriend pages and `Program.cs`: they are outside the handlers modelled here.
- The service implementations: their replies are inputs, one per call position.
- The text of an exception message, beyond being carried into "An error occurred: …".
- `Guid.TryParse` syntax: it is a parameter. The model only uses whether it succeeds and the value it yields.
- Calendar validity of `DateTime`: dates are compared lexicographically on (year, month, day, tick of day), as .NET ticks order valid dates.
- The Unicode version behind `char.IsWhiteSpace`: the whitespace table is fixed to the separators listed in `Text.IsWhiteSpace`.
- `new FriendCuDto(friend)` used for the re-link: the copy constructor is not part of this model. `Model.FriendPayloadOf` assumes it copies the friend's fields and its address id.
- Redirect targets: `RedirectToPage("/Friends/Overview")` and `Redirect("/Friends/Overview")` are both `Overview`. `Redirect($"/Friends/Details/{id}")` is `FriendDetails(id)`, and `RedirectToPage(new { id = friendId })` is `DetailsRoute(friendId)`.
- Details.OnGet: the `catch` branch and the not-found branch both redirect to the overview, so an exception is a `Failed` reply with the same outcome as `NotFound`.
- The reply of the pet and quote services in `OnPostDeletePetAsync` and `OnPostDeleteQuoteAsync`: it only chooses which line is logged, so `Details.OnPostDeletePet` and `Details.OnPostDeleteQuote` do not take it.
- Concurrency and `async`: each awaited call is one position in the call sequence.

## Findings

| source | as written | input that shows it | evidently intended | confidence | as-written member | corrected member |
|---|---|---|---|---|---|---|
| AppRazor/Pages/EditAddress.cshtml.cs:125 | `if (IsNewAddress && FriendId.HasValue)` reads `IsNewAddress`, which `OnPost` never assigns before that line. It is not a bound property, so on a POST it keeps its default, `false`, and the friend re-link never runs | a POST of a valid new address (no `AddressId`) with `FriendId` set, where the friend exists: only `CreateAddress` is called, and the friend is never pointed at the new address | before the test, set `IsNewAddress` to whether `AddressId` is null or `Guid.Empty`, as lines 94 and 165 do, so that a new address is linked to its friend | medium, not executed | EditAddress.OnPostAsWritten | EditAddress.OnPostIntended |
