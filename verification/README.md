# Room-booking backend: bookings, users and the admin login

This project is a Dafny model of the core of a small hotel room-booking backend. It has three parts.

- **Bookings** (`models/Booking.js`) covers:
  - the booking schema with its field validators;
  - the `pending` / `confirmed` / `cancelled` status with its default;
  - the `isRoomAvailable` overlap query over half-open day ranges, with an optional booking to exclude;
  - the `confirm` step, which re-checks availability against every other booking before it moves a booking from `pending` to `confirmed`, and whose save re-runs the check-in validator against the current day;
  - the `toJSON` transform, which writes each date as its day and drops `__v`.
- **Users** (`models/User.js`) covers:
  - the e-mail pattern `^[^\s@]+@[^\s@]+\.[^\s@]+$`, written out as character predicates;
  - the ten-digit phone number;
  - the role enum with its default `user`;
  - the trimmed two-character names;
  - `isAdmin` and `getFullName`;
  - the pre-save hook that validates and lower-cases the e-mail. The hook is modelled on its own. In mongoose, schema validation runs before user `pre('save')` hooks. The schema's e-mail validator (`models/User.js:11-12`) tests the same pattern on the same trimmed, lower-cased value, so on a validated save the hook's "Invalid email format" abort cannot happen. Its lower-casing is then a no-op too, because the `lowercase: true` setter has already run;
  - the `toJSON` transform, which hides the password.
- **Admin login** (`routes/authroutes.js`) is a module-level table from e-mail to password. A first login with an unknown e-mail registers it. Later logins are checked against the stored password. `AdminLogin.Login` models the corrected handler, which looks e-mails up among the table's own entries; the code as written (`LoginAsWritten`) also sees `Object.prototype` members, see "## Findings".

Modelling choices:

- **Dates** are whole day numbers. The source's `setHours(0, 0, 0, 0)` normalisation is already applied, so it is the identity here.
- **"Today"** is a parameter.
- **The MongoDB collection** is a `seq<Booking>` held by the `BookingStore` class.
- **The in-memory login table** is a `map<string, string>` held by the `AdminLogin` class.
- **Specification functions.** `Confirm` and `Login` are each proved equal to a pure step function, and their properties are proved as lemmas about that function:
  - `ConfirmStep` for `BookingStore.Confirm`;
  - `LoginStep` for `AdminLogin.Login`.

Modules:

- `Wrappers`: `Option` and `Result`.
- `Text`: ECMAScript whitespace, `trim`, `^[0-9]{n}$` and lower-casing.
- `Documents`: the values in a document's plain object.
- `Bookings`, `Users` and `AuthRoutes`: the three parts above.

## Model

| member | source | states |
|---|---|---|
| Text.TrimStart | models/Booking.js:11 | Dropping the leading whitespace never lengthens the text. The result is empty or starts with a non-whitespace character. |
| Text.TrimStartDrops | models/Booking.js:11 | What `TrimStart` removes is a prefix made only of whitespace. The rest is kept as it was. |
| Text.TrimEnd | models/Booking.js:11 | Dropping the trailing whitespace never lengthens the text. The result is empty or ends with a non-whitespace character. |
| Text.TrimEndDrops | models/Booking.js:11 | What `TrimEnd` removes is a suffix made only of whitespace. The rest is kept as it was. |
| Text.Trim | models/Booking.js:11 | `trim: true` yields a text no longer than the input that neither starts nor ends with whitespace. |
| Text.TrimSlice | models/User.js:8 | Trimming keeps one contiguous slice of the input. It drops only whitespace before and after that slice. |
| Text.TrimmedIsFixed | models/User.js:33 | A trimmed text is unchanged by trimming, so trimming is idempotent. |
| Text.TrimmedLengthAtLeastTwo | models/Booking.js:11-12 | `trim` then `minlength: 2` accepts a text iff it holds two non-whitespace characters at distinct positions. |
| Text.DigitsValue | models/Booking.js:29 | The value of an n-digit string is below 10^n. |
| Text.Decimal | models/Booking.js:29 | The zero-padded rendering has exactly the requested width and only digits. |
| Text.DecimalDigitsValue | models/Booking.js:29 | Rendering a number below 10^n with n digits and reading it back gives the number. |
| Text.DigitsValueDecimal | models/Booking.js:29 | Reading a digit string and rendering it at its own width gives the string back. |
| Text.DigitStringIffDecimal | models/Booking.js:29 | `^[0-9]{n}$` accepts exactly the n-digit zero-padded renderings of the numbers below 10^n. |
| Text.LowerChar | models/User.js:100 | Lower-casing a character keeps its whitespace status. It changes exactly the capital letters. It never yields a capital. |
| Text.LowerCharOfCapital | models/User.js:100 | A capital letter becomes the small letter at the same place in the alphabet. Together with `LowerChar` this fixes the image of every character. |
| Text.Lower | models/User.js:100 | `toLowerCase` keeps the length and lower-cases each character in place. |
| Text.LowerIdempotent | models/User.js:100 | Lower-casing twice is lower-casing once. |
| Bookings.ParseStatus | models/Booking.js:75-77 | The status enum accepts exactly "pending", "confirmed" and "cancelled". It returns the status with that name. |
| Bookings.ParseStatusName | models/Booking.js:75-77 | Every status, written as its name, reads back as itself. |
| Bookings.StatusOrDefault | models/Booking.js:75-78 | An unset status defaults to `pending`. A set one must pass the enum. |
| Bookings.MobileNoIsTenDigitNumber | models/Booking.js:27-30 | A mobile number is accepted iff it is the ten-digit zero-padded form of a number below 10^10. |
| Bookings.AadharNoIsTwelveDigitNumber | models/Booking.js:37-40 | An Aadhar number is accepted iff it is the twelve-digit zero-padded form of a number below 10^12. |
| Bookings.CheckOutNeedsCheckIn | models/Booking.js:63-64 | Without a check-in date the check-out validator fails, whatever the check-out date is. |
| Bookings.CollectErrors | models/Booking.js:3-79 | On a list of distinct paths, an error is reported iff its path is among those checked and that path's validator fails with that violation. No path is reported twice. |
| Bookings.AllFieldsListed | models/Booking.js:3-79 | Every path of the schema is among the validated paths. |
| Bookings.Errors | models/Booking.js:3-79 | Validation reports an error exactly for each path whose `required` or other validator fails, and at most one error per path. |
| Bookings.FailingFieldRejects | models/Booking.js:14-79 | A request on which any single path fails is not acceptable. |
| Bookings.PassingFieldsAccept | models/Booking.js:14-79 | A request on which all nine paths pass is acceptable. |
| Bookings.FailingFieldReported | models/Booking.js:14-79 | A failing path makes the error list non-empty. |
| Bookings.NoErrorsIffAcceptable | models/Booking.js:3-79 | Validation reports no error iff the request meets every field rule. The rules are: <ul><li>room given;</li><li>name of two characters or more after trimming;</li><li>age 18 or more;</li><li>address given;</li><li>10-digit mobile number;</li><li>12-digit Aadhar number;</li><li>check-in not before today;</li><li>check-out after check-in;</li><li>a valid or unset status.</li></ul> |
| Bookings.AcceptedDraftIsWellFormed | models/Booking.js:8-78 | An accepted request is stored as a well-formed record: text trimmed, a stay of at least one night, check-in not before today, status defaulted to `pending`. |
| Bookings.OverlapSymmetric | models/Booking.js:114-115 | The overlap test is symmetric in its two ranges. |
| Bookings.OverlapIffSharedDay | models/Booking.js:114-115 | Two non-empty half-open ranges overlap iff some day lies in both. |
| Bookings.OverlappingBookings | models/Booking.js:109-125 | The overlap query returns only stored bookings that match every condition. It returns every stored booking that does. |
| Bookings.IsRoomAvailable | models/Booking.js:102-127 | The room is available iff no stored booking matches all four conditions: <ul><li>same room;</li><li>status pending or confirmed;</li><li>not the excluded id;</li><li>`in < checkOut && out > checkIn`.</li></ul> |
| Bookings.NonBlockingIgnored | models/Booking.js:109-126 | Adding a booking that fails any query condition, anywhere in the store, leaves availability unchanged. |
| Bookings.CancelledNeverBlocks | models/Booking.js:111 | A cancelled booking never affects availability. |
| Bookings.OtherRoomNeverBlocks | models/Booking.js:110 | A booking for another room never affects availability. |
| Bookings.TouchingNeverBlocks | models/Booking.js:114-115 | A booking that ends on the requested check-in day, or starts on the requested check-out day, never affects availability. |
| Bookings.SharedDayMakesUnavailable | models/Booking.js:109-126 | An active, non-excluded booking of the room that shares a night with the request makes the room unavailable. |
| Bookings.IdenticalRangeUnavailable | models/Booking.js:114-126 | Requesting exactly the non-empty range of an active booking of that room, with no exclusion, finds the room taken. |
| Bookings.ExcludeOnlyWidens | models/Booking.js:121-123 | Excluding an id can only turn unavailable into available, never the reverse. |
| Bookings.ExcludeSelf | models/Booking.js:121-123 | When ids are unique, excluding a booking's own id removes exactly that booking from the query. Availability then depends only on the other bookings. |
| Bookings.ConfirmOutcome | models/Booking.js:130-150 | On a well-formed stored booking (one that passed validation), `confirm` succeeds iff the booking is pending, no other active booking of its room overlaps its stay, and its check-in day is not before today. It fails with "Can only confirm pending bookings" iff the booking is not pending. It fails with "Room is no longer available for these dates" iff it is pending and something overlaps. It fails with the validator's "Check-in date must be in the future" iff it is pending, nothing overlaps, and check-in has passed. Once the booking is pending and nothing overlaps, it succeeds iff saving the confirmed record reports no validation error. On failure the store is unchanged. On success only that booking's status changes, to confirmed. |
| Bookings.ConfirmPreservesConfirmedDisjoint | models/Booking.js:130-150 | If no two confirmed bookings of a room overlap before `confirm` of a well-formed booking, none do after it. |
| Bookings.RevalidationChecksOnlyTheDay | models/Booking.js:4-79 | Saving a well-formed record again runs every path's validator, but only the check-in one can fail: there are no errors iff check-in is not before today. When it passes, the setters give back the same record. |
| Bookings.ConfirmPreservesActiveDisjoint | models/Booking.js:147 | `confirm` keeps active bookings pairwise non-overlapping. |
| Bookings.AppendKeepsInvariant | models/Booking.js:3-79 | Appending a validated record under the next id keeps ids unique and every record well formed. |
| Bookings.CreateMayBreakConfirmedDisjoint | models/Booking.js:75-79 | Saving an acceptable request whose status is "confirmed", for a room with an overlapping confirmed booking, stores a second confirmed booking that conflicts with the first. Disjointness of confirmed bookings is therefore not an invariant of the collection. |
| Bookings.ConfirmKeepsInvariant | models/Booking.js:147-148 | Saving a confirmed booking keeps ids unique and every record well formed. |
| Bookings.BookingStore.constructor | models/Booking.js:163 | The collection starts empty. |
| Bookings.BookingStore.Create | models/Booking.js:3-79 | Saving a request fails iff validation reports errors, and then returns exactly those errors and leaves the store unchanged. Otherwise it appends the trimmed, defaulted record under a fresh id. |
| Bookings.BookingStore.Confirm | models/Booking.js:130-150 | On the stored booking and the current day, `confirm` does what `ConfirmStep` specifies. It fails with NotPending iff the booking is not pending. It fails with CheckInPassed only when the check-in day is before today. On any failure the store is unchanged. On success the booking was pending with check-in not passed; only that booking changes, to confirmed, and it then conflicts with no other booking. The store invariant holds, and disjointness of confirmed bookings is preserved. The caller's document is returned as well. It is unchanged after NotPending or NoLongerAvailable. After CheckInPassed it says confirmed, as on success, while the stored record stays pending. |
| Bookings.KeysDistinct | models/Booking.js:4-79 | The eleven paths of a booking document have pairwise different key names. |
| Bookings.ToJson | models/Booking.js:84-93 | `toJSON` writes both dates, when present, as their day. It removes `__v` and keeps every other key and value. |
| Bookings.ToJsonOfStored | models/Booking.js:84-93 | The JSON of a stored booking is, key by key, its fields with the two dates as days and without `__v`. |
| Bookings.ReadBookingJson | models/Booking.js:84-93 | Reading a booking back from its key-by-key JSON (dates as days, status by name) gives the same booking. |
| Bookings.JsonRoundTrip | models/Booking.js:84-93 | The JSON of a booking has no `__v` and shows check-in and check-out as days. The whole booking can be read back from it. |
| Users.ValidEmailSplits | models/User.js:12 | An address the validator accepts splits as `local@domain.tld`, with all three parts non-empty and free of whitespace and `@`. |
| Users.PatternIsValidEmail | models/User.js:12 | Any `local@domain.tld` with three non-empty parts free of whitespace and `@` is accepted. |
| Users.EmailValidatorMatchesPattern | models/User.js:12 | The character-level validator accepts exactly the strings the regular expression describes. |
| Users.AcceptedEmailShape | models/User.js:94-96 | An accepted e-mail has no whitespace and exactly one `@`, with text before it. After the `@` there is a `.` with text on both sides. |
| Users.LowerKeepsEmailAt | models/User.js:94-100 | Lower-casing keeps a match of the e-mail pattern, with its `@` at any given position, and creates none. |
| Users.LowerKeepsEmailValidity | models/User.js:94-100 | Lower-casing neither makes nor breaks a valid e-mail. |
| Users.NameRejectedIffShort | models/User.js:30-41 | A first or last name is rejected iff it has fewer than two non-whitespace characters. |
| Users.RoleOrDefault | models/User.js:22-29 | An unset role is `user`. A set one is kept. |
| Users.NewUserValidity | models/User.js:3-51 | A new user document passes validation iff its raw fields do: <ul><li>the trimmed e-mail matches the pattern;</li><li>the password has 8 characters or more;</li><li>the role is unset or an enum value;</li><li>both names have two characters after trimming;</li><li>the phone number has 10 digits.</li></ul> |
| Users.AdminOnlyOnRequest | models/User.js:109-111 | A new user's `isAdmin()` is true iff the request set the role to `admin`; an unset role gives a plain user. When the role passes the enum, a user who is not an admin has the role `user`. |
| Users.DefaultRoleIsNotAdmin | models/User.js:22-29 | A user created without a role has a valid role and is not an admin. |
| Users.FullNameShape | models/User.js:113-115 | `getFullName()` is the first name, one space, then the last name. It is trimmed when both names are trimmed and non-empty. It has at least 5 characters on a valid user. |
| Users.NewUserNamesTrimmed | models/User.js:30-41 | A new user's names are stored trimmed. |
| Users.UserDocument.constructor | models/User.js:3-51 | A new document holds the trimmed, lower-cased e-mail, the trimmed names and the defaulted role. It is new and its e-mail counts as modified. |
| Users.UserDocument.PreSave | models/User.js:87-106 | An unchanged, not-new document proceeds untouched. An invalid e-mail aborts with "Invalid email format" and changes nothing. Otherwise the e-mail is lower-cased, stays valid, and a second lower-casing is a no-op. |
| Users.KeysDistinct | models/User.js:4-51 | The paths of a user document in this model have pairwise different key names. |
| Users.ToJson | models/User.js:78-82 | `toJSON` never contains `password` or `__v`. It keeps every other key with its value and adds none. |
| Users.JsonHidesOnlyPassword | models/User.js:78-82 | The JSON of a user has no password. Every public field can be read back from it unchanged. |
| AuthRoutes.LoginStepOutcomes | routes/authroutes.js:7-24 | The four outcomes of one request: <ul><li>missing or empty credentials fail and change nothing;</li><li>a known e-mail succeeds iff the password matches, changing nothing;</li><li>an unknown e-mail is registered with the given password and succeeds.</li></ul> |
| AuthRoutes.LoginStepKeepsTable | routes/authroutes.js:14-22 | One request never changes a stored password and never touches another e-mail's entry. It stores no empty password. |
| AuthRoutes.RunKeepsPasswords | routes/authroutes.js:5-24 | Across any sequence of requests, every stored password stays as first written. No empty password is ever stored. |
| AuthRoutes.FirstPasswordWins | routes/authroutes.js:14-22 | After an e-mail registers, and whatever requests follow, a login with it succeeds iff the password is the one it registered with. |
| AuthRoutes.AdminLogin.constructor | routes/authroutes.js:5 | The table starts empty. |
| AuthRoutes.AdminLogin.Login | routes/authroutes.js:7-24 | The corrected `POST /admin-login`, which looks e-mails up among the table's own entries, does what `LoginStep` specifies. The code as written differs only on unregistered `Object.prototype` names (see "## Findings" and `AsWrittenAgreesElsewhere`). It succeeds iff the credentials are present and the e-mail is either unknown or given its stored password. Old entries are unchanged, the only new entry is the request's e-mail, and no stored password is empty. |
| AuthRoutes.PrototypeEmailNeverRegisters | routes/authroutes.js:14-22 | As written, an unregistered e-mail that names an `Object.prototype` member gets "Incorrect password" and is never stored. The corrected handler registers it. |
| AuthRoutes.ConstructorEmailCounterexample | routes/authroutes.js:14 | On a fresh table, e-mail "constructor" gets "Incorrect password" as written, but "New user registered and logged in" from the corrected handler. |
| AuthRoutes.AsWrittenAgreesElsewhere | routes/authroutes.js:14-22 | For every e-mail that is not an inherited member name, or is already registered, the handler as written and the corrected one agree. |

## Left out

- Persistence. The MongoDB collection, `find`, `save`, the indexes and `mongoose.model` are not modelled. The collection is a sequence held in memory, and a user document is a single object.
- Calendar dates. JavaScript `Date`, the local time zone, `setHours` and `toISOString` are not modelled. Dates are day numbers, and the `YYYY-MM-DD` text is represented by the day it names (`DayText`). The calendar conversion is not modelled. One consequence: the source stores a date as local midnight but `toJSON` prints its UTC date, so east of UTC a date prints as the day before. For example, at UTC+5:30 local midnight on 1 June 2025 is 2025-05-31T18:30Z, which prints as "2025-05-31"; the model prints the day itself.
- Bookings pre-save hook (`models/Booking.js:153-161`): it only resets the time of day, which is the identity on day numbers, so it has no member.
- Concurrency. The race between the availability check and `save` inside `confirm`, and concurrent requests on the login table, are not modelled. Every operation runs to completion on its own.
- Bookings.BookingStore.Create: creating a booking does not check availability. This follows the code, which validates fields only. The request may also set `status` to "confirmed" or "cancelled". Overlapping pending bookings can therefore coexist, and so can overlapping confirmed ones (`CreateMayBreakConfirmedDisjoint`).
- Bookings.BookingStore.Confirm: it takes the stored booking's position in the collection. The source calls it on a document loaded from the collection. The save re-runs every validator, but the model checks only the check-in one. The others cannot fail on a record that passed validation when it was saved, which every record in `BookingStore` did (`RevalidationChecksOnlyTheDay`). The returned `document` shows the status the source leaves in memory after a failed check-in save. What the caller does with that stale document afterwards is not modelled: a second `confirm` on it fails with "Can only confirm pending bookings", and a later save after moving the check-in forward stores `confirmed` with no availability re-check.
- Bookings.ConfirmOutcome: requires the booking to be well formed, as every record in `BookingStore` is. The source's collection can also hold records changed without validation, for example by `findOneAndUpdate` in `routes/bookingRoutes.js`. On such a record the save could fail on another path (a check-out before check-in, say), and this model does not cover that case. `ConfirmPreservesConfirmedDisjoint` carries the same requirement.
- Validation messages with interpolated values (for example "… is not a valid mobile number!") are not modelled. An error carries its path and whether `required` or the other validator failed.
- Number casting is not modelled. Ages are integers; mongoose's casting of strings and fractions to numbers is left out, as is a `CastError` on a malformed date.
- Missing text fields are represented as the empty text. Mongoose's `required` rejects both alike.
- Text.Lower: only ASCII capitals are lower-cased. JavaScript's `toLowerCase` covers all of Unicode.
- Text.LowerChar: "changes exactly the capital letters" means `A` to `Z` only. `toLowerCase` also changes non-ASCII capitals such as `É`, which this model leaves as they are.
- Bookings.ValidCustomerName: counts Unicode scalar values, where JavaScript's `minlength` counts UTF-16 code units. A name made of one character outside the Basic Multilingual Plane (such as `U+1D49C`) is two units long in the source and accepted there, but rejected here.
- Users.ValidName: the same difference as `ValidCustomerName`, for `firstName` and `lastName`.
- Users.ValidPassword: counts Unicode scalar values. A password of four astral characters (for example emoji) is eight UTF-16 units and accepted by the source's `minlength: 8`, but rejected here.
- Text.TrimmedLengthAtLeastTwo: it characterises two scalar values after trimming, not two UTF-16 units; the lemmas built on it (`NameRejectedIffShort`, `FullNameShape`'s length bound) carry the same difference.
- Users.IsValid: it states acceptance only. It does not report errors path by path as the booking schema model does.
- User fields not modelled: `address`, `lastLogin`, `isActive`, `verificationStatus`, and the `unique` index on `email`.
- `findActive`, `findByRole` and `findVerified` (`models/User.js:118-128`) are database queries and are not part of this model.
- `createdAt` and `updatedAt` are not modelled; they are kept by `timestamps: true`.
- Request bodies whose `email` or `password` is not a string (numbers, arrays, objects) are not modelled. Both fields are optional strings.
- `routes/bookingRoutes.js`, `utils/db.js`, `index.js` and the `scripts/` directory are not part of this model. They hold Express wiring, connection handling, console I/O and HTTP calls.
- Cancelling a booking and changing its dates have no operation in the source, so none is modelled.

## Findings

| source | as written | input that shows it | evidently intended | confidence | as-written member | corrected member |
|---|---|---|---|---|---|---|
| routes/authroutes.js:14 | The table is a plain object `{}`. `users[email]` also finds the members every object inherits from `Object.prototype`, and they are truthy. | `{"email": "constructor", "password": "secret"}` on a fresh server gets "Incorrect password". Any password does, forever. The same holds for `toString`, `__proto__`, `valueOf`, and so on. | An unknown e-mail is registered and logged in, which needs an own-property lookup. | not executed | AuthRoutes.ConstructorEmailCounterexample | AuthRoutes.AdminLogin.Login |
