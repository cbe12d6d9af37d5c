# SmartTix request handlers and client guards, in Dafny

SmartTix is a support-ticket system. An Express back end keeps users and tickets in MongoDB. A React front end lets people sign up, log in, file tickets and administer users. This project models the decision logic of both halves and proves what that logic promises.

Back end:

- **Accounts** (`UserModel`, `OtpCode`, `UserController`, `UserProtocol`).
  - The handlers are signup with a six-digit code, code verification, login, the admin-only user update and listing, and the password-reset code cycle.
  - Each handler is a pure step function over the collection (a map from email to document). The lemmas about the step functions state what the handler promises.
  - The class `UserController.UserStore` runs the handlers imperatively: fetch, check, assign fields, save. Each of its methods is proved equal to its step function and to keep the store invariant:
    - each document sits under its own email;
    - email and password are present;
    - a verified user has no pending code, an unverified one has one;
    - each code field moves with its expiry.
  - Stored code fields have three states: never set (`undefined`), cleared (`null`), or a value. JavaScript's `===` and `<` treat these states differently, and that matters in the finding below.
- **Tickets** (`TicketController`).
  - Visibility by role and the newest-first listing are pure functions. `TicketController.GetTicketsByRole` says a plain user sees exactly their own tickets, with `createdBy` projected away.
  - The single fetch is also a pure function. For a plain user, someone else's ticket is indistinguishable from a missing one.
  - The class `TicketController.TicketStore` holds the tickets and the outbox of `ticket/created` events. Creation and the status update are its methods. Every event belongs to a stored ticket and carries that ticket's title, description and creator.
- **AI reply unwrapping** (`AiResponse`).
  - This covers the part of `analyzeTicket` after the model call returns.
  - The regular expression ```` /```json\s*([\s\S]*?)\s*```/i ```` is specified by the matches it admits and by the order a backtracking engine tries them.
  - A direct computation is proved to find exactly the reported match.
  - `JSON.parse` is a parameter.

Front end:

- **Admin panel** (`AdminPanel`): the skills text box, with the join/split/trim round trip, and the case-insensitive email search.
- **Route guard** (`CheckAuth`).
- **Signup form** (`SignupPage`): the confirm-password test, the mismatch warning, the submit button and the request body.

`JsValues` and `JsStrings` hold the JavaScript semantics these rely on: `undefined`, `null`, Date comparison, truthiness, `trim`, `toLowerCase`, `includes`, `split` and `join`.

Inputs the model does not compute:

- The clock is a parameter `now`, in milliseconds.
- `Math.random` is a parameter: the integer draw below 900000.
- bcrypt is two arbitrary function parameters, `hash` and `compare`.
- The mailer and `inngest.send` are booleans saying whether the call resolved.
- The authenticated caller is its id and role string.

Two choices in the ticket record follow the code:

- `status` is a `string` because `updateTicketStatus` stores whatever value it receives (Backend/controllers/ticket.js:152).
- `assignedTo` is an optional single `Assignee` because the listing and the fetch populate one reference (Backend/controllers/ticket.js:45, Frontend/src/pages/ticket.jsx:86).

## Model

| member | source | states |
|---|---|---|
| UserModel.ParseRole | Backend/models/user.js:7 | the role enumeration accepts exactly the names "user", "moderator" and "admin" |
| OtpCode.Code | Backend/controllers/user.js:18 | the code for a draw below 900000 is six decimal digits and denotes 100000 + draw |
| OtpCode.DecimalRoundTrip | Backend/controllers/user.js:18 | reading back the digits of `toString` gives the number |
| OtpCode.DecimalLength | Backend/controllers/user.js:18 | a number of k digits prints as k characters |
| OtpCode.CodeInjective | Backend/controllers/user.js:18 | distinct draws give distinct codes |
| UserController.SignupRejectsTakenEmail | Backend/controllers/user.js:12-13 | an existing email is refused with 400 and the store is unchanged |
| UserController.SignupCreatesUnverifiedUser | Backend/controllers/user.js:9-38 | a new email adds exactly one document; every other document is unchanged; the new document is unverified, holds the hashed password, the given skills (default []), a six-digit code and an expiry now + 600000, and has role "user" and no reset code; a failed mail still leaves that document and replies 500 |
| UserController.SignupInvalidStoresNothing | Backend/controllers/user.js:15-40 | a non-string password, an empty email or an empty hash gives 500 and stores nothing |
| UserController.VerifyOtpChecksInOrder | Backend/controllers/user.js:67-77 | the code is accepted iff the user exists, is unverified, the code is the stored one and the expiry is not before now; each refusal is 400 with the message of the first failing check and changes nothing; acceptance sets `isVerified` and clears code and expiry to null |
| UserController.VerifyOtpNeedsIssuedCode | Backend/controllers/user.js:66-77 | in a store keeping the invariant, verification succeeds only with the pending six-digit code of an unverified user, not yet expired; a request without `otp` never succeeds |
| UserController.VerifyOtpAcceptsIssuedCode | Backend/controllers/user.js:70-71 | the stored code entered no later than its expiry is accepted |
| UserController.LoginChecksInOrder | Backend/controllers/user.js:138-153 | a token is issued iff the user exists, the password matches and the account is verified; the refusals come in the order 401 unknown, 401 bad password, 403 unverified; the token names the user and its role |
| UserController.UpdateUserChangesSkillsAndRole | Backend/controllers/user.js:177-188 | a non-admin gets 403 and an unknown user 401, both changing nothing; otherwise a missing or empty skills list keeps the stored skills, a non-empty one replaces them, a given role replaces the stored one and a missing one keeps it, and nothing else of that user or any other user changes |
| UserController.GetUsersHidesPasswords | Backend/controllers/user.js:197-200 | only an admin gets the list; it has every stored user, with the stored email, role, skills and verification flag, and the listing type has no password |
| UserController.ForgotPasswordSetsOnlyResetCode | Backend/controllers/user.js:210-229 | an unknown email is refused; otherwise only that user's reset code changes, to a fresh six-digit code, and its expiry to now + 600000, even when the mail fails (then 500) |
| UserController.ResetWithoutCodeAsWritten | Backend/controllers/user.js:237-248 | as written, a user who never requested a code has their password replaced by a request with no `otp` |
| UserController.ResetWithoutCodeExample | Backend/controllers/user.js:240-241 | a concrete freshly signed-up user whose password such a request replaces |
| UserController.ResetNeedsIssuedCode | Backend/controllers/user.js:237-248 | with the intended check, the reset succeeds iff a code is pending, equals the given one, has not expired and the new password hashes; success sets the hash and clears both reset fields to null; failure changes nothing |
| UserController.ResetStepAgreesWhenCodeIssued | Backend/controllers/user.js:240 | the intended check and the written one agree unless no code is pending |
| UserController.SignupKeepsInvariant | Backend/controllers/user.js:23-30 | signup keeps the store invariant |
| UserController.VerifyOtpKeepsInvariant | Backend/controllers/user.js:74-77 | verification keeps the store invariant |
| UserController.UpdateUserKeepsInvariant | Backend/controllers/user.js:184-187 | the admin update keeps the store invariant |
| UserController.ForgotPasswordKeepsInvariant | Backend/controllers/user.js:217-219 | issuing a reset code keeps the store invariant |
| UserController.ResetPasswordKeepsInvariant | Backend/controllers/user.js:243-246 | the reset keeps the store invariant |
| UserController.UserStore.Signup | Backend/controllers/user.js:8-42 | the imperative handler computes exactly `SignupStep` and keeps `Valid()` |
| UserController.UserStore.VerifyOtp | Backend/controllers/user.js:63-96 | computes exactly `VerifyOtpStep` and keeps `Valid()` |
| UserController.UserStore.Login | Backend/controllers/user.js:135-157 | returns exactly `LoginStep` and changes nothing |
| UserController.UserStore.UpdateUser | Backend/controllers/user.js:176-192 | computes exactly `UpdateUserStep` and keeps `Valid()` |
| UserController.UserStore.GetUsers | Backend/controllers/user.js:195-204 | returns exactly `GetUsersStep` and changes nothing |
| UserController.UserStore.ForgotPassword | Backend/controllers/user.js:207-231 | computes exactly `ForgotPasswordStep` and keeps `Valid()` |
| UserController.UserStore.ResetPassword | Backend/controllers/user.js:234-252 | computes exactly the corrected `ResetPasswordStep` and keeps `Valid()` |
| UserProtocol.SignupThenVerifyThenLogin | Backend/controllers/user.js:8-157 | signup, then the mailed code in time, then login gives a token for that email with role "user"; login before verification is refused with 403; a second verification is refused as already verified |
| UserProtocol.LateCodeIsRefused | Backend/controllers/user.js:21-71 | the mailed code entered after ten minutes is refused as expired and changes nothing |
| UserProtocol.WrongCodeIsRefused | Backend/controllers/user.js:70 | any other code is refused as invalid and changes nothing |
| UserProtocol.FailedMailLocksEmail | Backend/controllers/user.js:12-40 | after a failed signup mail the unverified account stays: signing up again is refused and login gives 403 |
| UserProtocol.ForgotThenReset | Backend/controllers/user.js:207-248 | a reset code entered in time sets the new password, login then accepts it, and the used code cannot be replayed |
| UserProtocol.LateResetCodeIsRefused | Backend/controllers/user.js:215-241 | a reset code entered after ten minutes is refused as expired and changes nothing |
| TicketController.RoleChecksAgreeOnSchemaRoles | Backend/controllers/ticket.js:42-145 | for the three schema roles, "sees all tickets" and "may update status" coincide and exclude exactly "user"; any other role string sees all tickets but may update none |
| TicketController.VisibleCounts | Backend/controllers/ticket.js:42-49 | staff see the stored sequence; a plain user sees each of their own tickets as often as it is stored and no other |
| TicketController.InsertByDate | Backend/controllers/ticket.js:46 | inserting into a newest-first list keeps it newest-first and adds exactly that element |
| TicketController.SortNewestFirst | Backend/controllers/ticket.js:46-52 | the result is ordered by `createdAt` descending and is a permutation of the input |
| TicketController.GetTickets | Backend/controllers/ticket.js:37-61 | the listing is newest-first and a permutation of the visible tickets projected for the caller |
| TicketController.GetTicketsByRole | Backend/controllers/ticket.js:42-52 | staff receive every stored ticket whole, with multiplicity; a plain user receives exactly their own tickets, each in the projection without `createdBy` |
| TicketController.FindById | Backend/controllers/ticket.js:118 | a found ticket is stored and has the id; not found means no stored ticket has it |
| TicketController.GetTicket | Backend/controllers/ticket.js:117-131 | a returned ticket is stored and has the id and, for a plain user, is theirs; None (404) means no such ticket is visible to the caller |
| TicketController.GetTicketDependsOnOwnTicketsOnly | Backend/controllers/ticket.js:122-131 | for a plain user, adding other people's tickets changes nothing, and other people's tickets alone give 404 |
| TicketController.TicketStore.CreateTicket | Backend/controllers/ticket.js:4-35 | a missing or empty title or description gives 400 and changes nothing; otherwise exactly one ticket is appended with the caller as creator and, if the send resolved, exactly one "ticket/created" event with its id, title, description and creator (201), else no event and 500 |
| TicketController.TicketStore.UpdateTicketStatus | Backend/controllers/ticket.js:139-160 | the role is checked (403) before existence (404), neither changing anything; on success only the status of that ticket changes, to the given string |
| AiResponse.RawText | Backend/utils/ai.js:27 | the raw text is non-empty iff the first output message's content is a non-empty string, and then it is that content |
| AiResponse.FencedMatchIsReported | Backend/utils/ai.js:34 | the computed block is found iff the pattern matches, and it is the match a backtracking engine reports (leftmost opener, greedy `\s*`, lazy group) |
| AiResponse.CaptureIsTrimmedAndFenceFree | Backend/utils/ai.js:34 | the captured text has no white space at either end and contains no "```" |
| AiResponse.AnalyzeEmptyReply | Backend/utils/ai.js:27-31 | a missing or empty reply gives null without consulting the parser |
| AiResponse.AnalyzeUnfenced | Backend/utils/ai.js:34-38 | without a fenced block the parser gets the trimmed reply |
| AiResponse.AnalyzeFenced | Backend/utils/ai.js:34-42 | with a fenced block the parser gets exactly the reported group, and its own answer (failure as null) is the result |
| JsStrings.TrimStart | Backend/utils/ai.js:35 | the result is the suffix that follows the leading run of white space, and it does not start with white space |
| JsStrings.TrimEnd | Backend/utils/ai.js:35 | the result is the prefix that precedes the trailing run of white space, and it does not end with white space |
| JsStrings.Trim | Backend/utils/ai.js:35 | the result is an infix without white space at either end, and both removed ends are white space |
| JsStrings.TrimBothEnds | Backend/utils/ai.js:35 | `trim` equals `trimStart` followed by `trimEnd` |
| JsStrings.TrimEmptyIffAllSpace | Frontend/src/pages/admin.jsx:44 | trimming gives "" iff the string is all white space, and a trimmed string is left alone |
| JsStrings.TrimSkipsLeadingSpace | Frontend/src/pages/admin.jsx:44 | a white-space character in front never changes the trimmed result |
| JsStrings.ToLowerIgnoresCaseExactly | Frontend/src/pages/admin.jsx:59-61 | the lower-cased text holds no ASCII capital, and two texts lower-case alike exactly when they agree character by character up to ASCII case |
| JsStrings.ToLowerIdempotent | Frontend/src/pages/admin.jsx:59 | lower-casing an already lower-cased text changes nothing |
| JsStrings.IncludesIffOccurs | Frontend/src/pages/admin.jsx:61 | `includes` holds iff the needle occurs at some position |
| JsStrings.Split | Frontend/src/pages/admin.jsx:44 | splitting gives at least one piece, no piece holds the separator, and joining the pieces with it gives back the text |
| JsStrings.SplitAfterHead | Frontend/src/pages/admin.jsx:44 | splitting after a separator-free head gives the head and then the split of the rest |
| JsStrings.SplitNoSeparator | Frontend/src/pages/admin.jsx:44 | a separator-free text splits into itself |
| JsStrings.SplitJoin | Frontend/src/pages/admin.jsx:44 | splitting a join of separator-free pieces returns the pieces |
| AdminPanel.TrimKeepsAbsent | Frontend/src/pages/admin.jsx:44 | trimming never introduces a character |
| AdminPanel.ParseSkills | Frontend/src/pages/admin.jsx:44 | every parsed skill is non-empty, trimmed and comma-free |
| AdminPanel.ParseSkillsConcat | Frontend/src/pages/admin.jsx:44 | the skills of `a,b` are those of `a` followed by those of `b`: input order is kept |
| AdminPanel.ParseSkillsLeadingSpace | Frontend/src/pages/admin.jsx:44 | white space in front of the text changes nothing |
| AdminPanel.ParseSkillsText | Frontend/src/pages/admin.jsx:33-44 | for clean skills, parsing the ", "-join returns the same list |
| AdminPanel.ParseSkillsOfBlanks | Frontend/src/pages/admin.jsx:44 | a text of commas and white space only gives no skills |
| AdminPanel.EditThenSaveChangesNothing | Frontend/src/pages/admin.jsx:31-45 | opening a user with clean skills for editing and saving unchanged leaves the store as it was and replies 200 |
| AdminPanel.FilterIsSubsequence | Frontend/src/pages/admin.jsx:61 | the filtered list is a subsequence of the fetched list |
| AdminPanel.FilterMembers | Frontend/src/pages/admin.jsx:61 | a user is in the filtered list iff it is fetched and its lower-cased email contains the query |
| AdminPanel.SearchByEmail | Frontend/src/pages/admin.jsx:58-62 | the search shows, in fetched order, exactly the users whose email contains the typed text ignoring case, and everyone for an empty query |
| AdminPanel.SearchIgnoresCase | Frontend/src/pages/admin.jsx:59-61 | texts equal up to case give the same search state, the lower-cased text included |
| CheckAuth.Guard | Frontend/src/components/check-auth.jsx:38-53 | a page renders iff its kind fits the visitor (protected with a token, public without); a protected page without a token redirects to /login, a public one with a token to / |
| CheckAuth.GuardSeesOnlyTruthiness | Frontend/src/components/check-auth.jsx:39-47 | tokens of equal truthiness give equal decisions |
| CheckAuth.EmptyTokenIsNoToken | Frontend/src/components/check-auth.jsx:42-47 | an empty stored token is treated as none |
| CheckAuth.RedirectsSettle | Frontend/src/main.jsx:26-75 | every redirect from a routed page lands on a route that renders, so there is no redirect loop |
| SignupPage.PasswordsMatchMeans | Frontend/src/pages/signup.jsx:44 | the passwords match iff the password is non-empty and equals the confirmation |
| SignupPage.SubmitAndWarning | Frontend/src/pages/signup.jsx:82-90 | submitting is possible iff not loading and the passwords match; the warning shows iff the confirmation is non-empty and the passwords do not match (they never match under an empty password); whenever it shows the button is disabled |
| SignupPage.FormSignupHasNoSkills | Frontend/src/pages/signup.jsx:22 | the body the form sends creates the user with no skills and the hash of the typed password |
| SignupPage.ConfirmationIsNotSent | Frontend/src/pages/signup.jsx:22 | the confirmation never reaches the request body |

## Findings

| source | as written | input that shows it | evidently intended | confidence | as-written member | corrected member |
|---|---|---|---|---|---|---|
| Backend/controllers/user.js:240-241 | `if (user.resetOtp !== otp)` then `if (user.resetOtpExpiry < new Date())` | a POST to reset-password with `{ email, newPassword }` and no `otp`, for a user who never asked for a reset: `undefined !== undefined` is false and `undefined < date` is false, so the password is replaced | a reset only with a code that was issued and not yet used | high, not executed | UserController.ResetWithoutCodeAsWritten | UserController.ResetNeedsIssuedCode |

The as-written handler is `UserController.ResetPasswordAsWritten`. `UserController.ResetWithoutCodeExample` shows the same thing on a concrete store. The corrected handler is `UserController.ResetPasswordStep`. `UserController.UserStore.ResetPassword` runs the corrected handler.

After a completed reset the fields are `null`. A replayed request with `otp: null` then fails only because `null < date` is true, so "OTP expired" blocks it.

## Left out

- The triage worker that `ticket/created` events start is not part of this model. The model stops at the outbox.
- verifyEmail (Backend/controllers/user.js:46-61) is left out. It queries a `verificationToken` path the schema does not declare.
- logout is left out. It only verifies a token.
- jwt signing and verification: the token is its payload.
- bcrypt: hashing and comparison are arbitrary functions. The cost factor and the salt are not modelled.
- The mail transport and `inngest.send` are left out. Only whether they resolved is an input.
- The agent call and `JSON.parse` are left out. The parser is a parameter.
- Routes, server setup and the fetch-and-render pages are left out: tickets, ticket, login, forgot-password, navbar.
- Floating point: `Math.floor(100000 + Math.random() * 900000)` is taken as 100000 plus an integer draw below 900000.
- Database failures are left out. Only the 500 paths that come from validation or from bcrypt are modelled.
- Malformed ObjectIds in getTicket and updateTicketStatus are left out. These would be cast errors, replying 500.
- Request fields are modelled as strings or as absent, never as numbers, objects or arrays. `email` is always a string: a missing email would make `findOne` match any document. A numeric `otp` would always be refused with "Invalid OTP", since `!==` compares it with the stored string. A numeric title or description would pass `!title` and be cast to a string by Mongoose.
- TicketController.TicketStore.UpdateTicketStatus: a missing or non-string status is not modelled. The handler assigns whatever the body holds (Backend/controllers/ticket.js:141,152), so a request without `status` would clear the field; the model's `status` parameter is always a string.
- A `skills` of `null` is left out. Only a missing or a present list is modelled.
- UserController.UpdateUserStep takes the role as one of the three enum values. `updateOne` runs no validators, so another string would be stored, and the Role datatype cannot hold it.
- TicketController.SortNewestFirst keeps tickets with equal `createdAt` in stored order. MongoDB promises no particular order for ties.
- JsStrings.ToLower maps only the ASCII letters. Other characters are kept. Strings are sequences of code points, not UTF-16 units.
- The ticket schema (models/ticket.js) is not part of this model. The initial status is a parameter of `TicketStore`, and ticket ids come from a counter.
- The `ticket` field of createTicket's response holds the unresolved promise (Backend/controllers/ticket.js:29). Response bodies beyond status and message are not modelled.
- signup.jsx:28-31 stores the `token` and `user` fields of the signup response, which the handler does not send. That page state is not modelled.
- The welcome mail after verification is left out. Its failure is caught and ignored (Backend/controllers/user.js:80-90).
