# ConnectSphere store and form helpers in Dafny

This project models the core of a small community site built with Flask.
The server keeps all of its data in memory: a `users` dictionary keyed by
integer id, a `posts` list, and two counters that hand out user and post
ids. The request handlers that change this data are modelled here: seeding,
registration, the login lookup, post creation, profile editing (including the
loop that rewrites the author name on the user's posts), post deletion,
cascading user deletion, and promotion to administrator. The read side is
modelled too: the profile page, the admin dashboard counts and the admin
user list. The pure helpers of the browser script are covered as well: the
e-mail, password and confirmation validators, the toast icon choice, and the
character counter.

Modules:

- `Results`: `Option` and `Result`.
- `PyStr`: Python's `str.isspace` and `str.strip`.
- `Entities`: the user and post records and the ideal password hash. It
  also holds the order-preserving post filter (`Select`) behind every list
  comprehension over `posts`, the author-name rewrite, and the store
  invariants stated on values, with the lemmas that show each update keeps
  them.
- `Store`: the class `Store`, with fields `users`, `posts`, `userCounter` and
  `postCounter`, one method per handler, and the seed data.
- `Views`: the profile, dashboard and admin user list, as functions.
- `FormUtils`: the browser-side helpers. String length there counts UTF-16
  code units, as JavaScript's `.length` does.
- `Scenarios`: short handler sequences on a fresh store, with their outcomes.

The store invariant `Store.Store.Valid` says four things:

- both counters are positive;
- every user is stored under its own id, and that id is below `userCounter`;
- every post id is below `postCounter`, and post ids strictly increase along
  the list;
- no two users share an email.

Every mutating method keeps `Store.Store.Valid`. `Store.Store.Consistent`
(which applies `Entities.Consistent` to the fields) says that every post's
author is a live user and that the post shows that user's current name. The
store keeps it only while the session's user exists: `create_post` and
`edit_profile` trust the session, so each method keeps `Consistent` under
exactly the condition the handler needs.

## Model

| member | source | states |
|---|---|---|
| PyStr.StripLeft | app.py:219 | the result is a suffix of the input; what it drops is all white space, and it does not start with white space |
| PyStr.StripRight | app.py:219 | the result is a prefix of the input; what it drops is all white space, and it does not end with white space |
| PyStr.Strip | app.py:272 | the result neither starts nor ends with white space |
| PyStr.StripIsTrim | app.py:219 | `s.strip()` is a slice of `s` with only white space before and after it, so together with `Strip`'s own contract it is exactly `s` with its blank ends removed |
| PyStr.StripEmptyIffBlank | app.py:219 | `content.strip()` is empty exactly when the string is all white space, which is the blank-content and blank-name test |
| Entities.CheckPasswordHash | app.py:140 | a stored hash accepts exactly the password it was generated from |
| Entities.Select | app.py:372 | the filtered list holds exactly the posts whose match against the key is the wanted one, and is no longer than the input |
| Entities.SelectAppend | app.py:384 | filtering commutes with concatenation, so the posts that are kept stay in their relative order |
| Entities.SelectKeepsAll | app.py:372 | a filter that drops nothing returns the list unchanged, so deleting an absent post id is a no-op |
| Entities.SelectPartition | app.py:384 | the posts kept and the posts dropped together account for every post |
| Entities.RenameAuthor | app.py:283-285 | every post of the user shows the new name; ids, authors, contents, timestamps and every other post are unchanged |
| Entities.ReplaceKeepsUsersInvariant | app.py:278-279 | overwriting a user with a record of the same id and email keeps key agreement and email uniqueness |
| Entities.InsertKeepsUsersInvariant | app.py:181-191 | inserting under the counter value, with an unused email, keeps key agreement (with the counter one higher) and email uniqueness |
| Entities.SelectKeepsIdsAscending | app.py:372 | filtering keeps post ids strictly increasing |
| Entities.SelectKeepsIdsIncreasing | app.py:384 | filtering keeps post ids issued and increasing, so no deletion makes an id reusable |
| Entities.OnePostWithId | app.py:372 | since post ids are unique, deleting an id that is present removes exactly one post |
| Entities.NoneMatch | app.py:372 | keeping the matches of a key that no post matches gives the empty list |
| Entities.SelectKeepsConsistent | app.py:372 | deleting posts keeps every remaining post's author live and its name current |
| Entities.CascadeKeepsConsistent | app.py:382-387 | removing a user together with all of that user's posts leaves no orphaned post |
| Entities.RenameKeepsConsistent | app.py:278-285 | renaming a live user and rewriting that user's posts keeps every author name current |
| Entities.RenameKeepsIdsIncreasing | app.py:283-285 | rewriting author names leaves post ids, and so their order, unchanged |
| Store.SeedEmailsDistinct | app.py:21-50 | the demo emails are pairwise distinct and differ from the administrator's |
| Store.SamplePostAuthors | app.py:81-103 | there are four demo users and five demo posts, each by a seeded user id |
| Store.SeedPostAuthorsAsWritten | app.py:81-103 | as written, two demo posts belong to the administrator and the last demo account has none |
| Store.IntendedSeedPostAuthors | app.py:81-103 | with every author id shifted past the administrator, no demo post is the administrator's and every demo account has one |
| Store.AppendedStep | app.py:69-79 | one more demo account under the next id extends the seeded map by exactly that record |
| Store.AppendedKeepsUsersInvariant | app.py:69-79 | adding accounts with fresh, distinct emails under fresh ids keeps the users invariant |
| Store.Store.Valid | app.py:15-18 | the class invariant: positive counters, users keyed by their own ids below the user counter, post ids issued and increasing, unique emails |
| Store.Store.constructor | app.py:15-18 | the empty store with both counters at 1 satisfies the invariant |
| Store.Store.InitSampleData | app.py:53-114 | the seeded store is valid and consistent: administrator under id 1, the demo accounts under ids 2-5, the five posts under ids 1-5 showing their authors' names, both counters at 6 |
| Store.Store.SeedUsers | app.py:69-79 | one non-admin account per entry under consecutive ids from the counter, nothing else changed, invariant kept |
| Store.Store.SeedPosts | app.py:105-114 | one post per entry under ids 1, 2, ..., each showing its author's current name; ids increase and every author is live |
| Store.Store.FindByEmail | app.py:133-138 | finds the user with exactly this email when there is one, and reports none otherwise |
| Store.Store.Login | app.py:133-140 | succeeds exactly when some user has this email and the password matches that user's hash; the answer is that user |
| Store.Store.Register | app.py:166-191 | refuses an empty field, then a mismatched confirmation, then a used email, each time without any change; otherwise inserts a non-admin user under the old counter value, raises the counter by one, and leaves the other users and all posts alone |
| Store.Store.CreatePost | app.py:219-233 | refuses blank content without change; otherwise appends one post under the old post counter with the session's id and name, and raises that counter by one |
| Store.Store.EditProfile | app.py:265-285 | an absent user or a blank name changes nothing; otherwise the user's name and bio are overwritten and the posts become `RenameAuthor` of the old posts |
| Store.Store.ApplyProfileEdit | app.py:278-285 | overwrites name and bio, rewrites the user's posts, keeps the invariant and consistency |
| Store.Store.RenameAuthorInPosts | app.py:283-285 | the in-place loop leaves exactly `RenameAuthor` of the old posts |
| Store.Store.DeletePost | app.py:372 | the posts become those with another id, in order; exactly one fewer when the id is present, unchanged when absent |
| Store.Store.DeleteUser | app.py:382-391 | deletes exactly when the user exists and is not an admin, removing the user and exactly that user's posts; otherwise nothing changes |
| Store.Store.MakeAdmin | app.py:399-403 | an existing user gets the admin flag, an absent id changes nothing, promoting an admin changes nothing, and no one is ever demoted |
| Views.Profile | app.py:243-250 | an unknown id is refused; otherwise the user's record and exactly that user's posts |
| Views.ByIdDescending | app.py:347-348 | the listing has at most `bound` entries; its content, order and length are the lemmas below |
| Views.ByIdDescendingMembers | app.py:347 | the listing holds exactly the stored records of the users with the requested role |
| Views.ByIdDescendingSorted | app.py:348 | the listing is strictly ordered by id, highest first |
| Views.ByIdDescendingLength | app.py:318-320 | the listing is as long as the set of users with that role |
| Views.RoleCountsPartition | app.py:318-320 | the admin and non-admin counts add up to the number of users |
| Views.Dashboard | app.py:318-327 | the post count is the list length, and at most five recent users are shown, never more than the non-admin count |
| Views.DashboardCounts | app.py:318-327 | the user count is the number of non-admin users and the admin count the number of admins, together every user once; five recent users are shown unless there are fewer non-admins |
| Views.DashboardRecentUsers | app.py:323-327 | the recent users are stored non-admin users, highest id first, and no unlisted non-admin has a higher id than a listed one |
| FormUtils.JsLength | static/js/main.js:225 | the UTF-16 length is between the number of characters and twice that, and is zero only for the empty string |
| FormUtils.JsLengthAppend | static/js/main.js:225 | the UTF-16 length of a concatenation is the sum of the lengths |
| FormUtils.JsLengthOne | static/js/main.js:225 | one character counts as two code units outside the Basic Multilingual Plane and one inside it; with `JsLengthAppend` this fixes the length of every string |
| FormUtils.AstralLength | static/js/main.js:225 | text made only of characters outside the Basic Multilingual Plane is twice as long in code units as in characters |
| FormUtils.ValidateEmail | static/js/main.js:240-242 | the anchored pattern as a predicate: a split at an '@' and a later '.' with non-empty parts free of white space and '@'; `ValidateEmailCharacterized` states its language |
| FormUtils.ValidateEmailCharacterized | static/js/main.js:240-242 | the pattern accepts exactly the strings with no white space, exactly one '@' with text before it, and a '.' with text on both sides after it |
| FormUtils.SplitFromFacts | static/js/main.js:241 | no white space, a single '@' with text before it and an inner '.' after it give a match of the pattern |
| FormUtils.ValidSplitFacts | static/js/main.js:241 | one match of the pattern fixes the only '@' and rules out white space everywhere |
| FormUtils.ValidateEmailRejects | static/js/main.js:241 | any white space, no '@' at all, or two '@' characters make the address invalid |
| FormUtils.ValidatePassword | static/js/main.js:245-247 | a password is accepted when its UTF-16 length is at least eight; the lemmas below bound it in characters |
| FormUtils.ValidatePasswordBounds | static/js/main.js:245-247 | eight characters always pass, fewer than four never do, and for text inside the Basic Multilingual Plane the test is exactly eight characters or more |
| FormUtils.BmpLength | static/js/main.js:246 | text inside the Basic Multilingual Plane has one code unit per character |
| FormUtils.ValidatePasswordExtends | static/js/main.js:245-247 | lengthening an accepted password keeps it accepted |
| FormUtils.ValidatePasswordMatch | static/js/main.js:249-251 | the confirmation is accepted when it equals the password, character for character |
| FormUtils.PasswordMatchEquivalence | static/js/main.js:249-251 | the confirmation check is reflexive, symmetric and transitive |
| FormUtils.GetToastIcon | static/js/main.js:209-216 | 'success' gives the check icon, 'error' and 'warning' the triangle, and every other type the info icon, each exactly |
| FormUtils.DigitChar | static/js/main.js:226 | a digit value renders as a digit character |
| FormUtils.DigitValue | static/js/main.js:226 | reading a digit character gives back its value |
| FormUtils.Decimal | static/js/main.js:226 | a count renders as a non-empty run of digits that starts with '0' only when it is exactly "0", for zero |
| FormUtils.DecimalRoundTrip | static/js/main.js:226 | parsing the rendered digits gives back the number |
| FormUtils.JsInt | static/js/main.js:226 | an integer renders as digits, with a leading '-' exactly when it is negative, and no leading zero after the sign unless it is 0 |
| FormUtils.JsIntRoundTrip | static/js/main.js:226 | reading the rendered integer back, sign included, gives the number |
| FormUtils.LeadingDigits | static/js/main.js:226 | the leading digit run is a prefix of the text, all digits, and stops at a non-digit |
| FormUtils.LeadingDigitsOf | static/js/main.js:226 | a digit string followed by a non-digit is exactly the leading run |
| FormUtils.CounterLabel | static/js/main.js:226 | the count, then " / max" for a truthy maximum, then " characters"; `CounterLabelParts`, `CounterLabelShape` and `CounterShowsLimitIff` state its form |
| FormUtils.CounterLabelParts | static/js/main.js:226 | without a truthy maximum the text is exactly the count and " characters"; with one it is the count, " / ", the maximum written without leading zeros so that it reads back as the maximum, and " characters" |
| FormUtils.CounterLabelShape | static/js/main.js:225-226 | the counter text starts with the UTF-16 length of the value, which reads back exactly, and ends with " characters" |
| FormUtils.CounterShowsLimitIff | static/js/main.js:226 | the " / max" part appears exactly when a truthy maximum is given |
| FormUtils.MarkedInvalid | static/js/main.js:228-234 | the field is marked invalid when a truthy maximum is given and the UTF-16 length exceeds it; its properties are the two lemmas below |
| FormUtils.MarkedInvalidShowsLimit | static/js/main.js:228-234 | the field is marked invalid only when the limit is shown, and more characters than a truthy limit always mark it |
| FormUtils.MarkedInvalidInBmp | static/js/main.js:228-234 | for text inside the Basic Multilingual Plane the field is marked exactly when a truthy limit is exceeded by the number of characters |
| Scenarios.RenameReachesPost | app.py:219-233 | after an account posts and then renames itself, its post shows the new name |
| Scenarios.CascadeDeletesPosts | app.py:382-391 | deleting another user keeps the post; deleting its author removes both, leaving an empty store |
| Scenarios.DuplicateRegistration | app.py:175-178 | the second registration with the same email is refused, the counter stays at 2, and exactly one user, id 1, holds the email |
| Scenarios.PromoteThenDelete | app.py:382-403 | after a user posts and is promoted, the delete is refused and both the user and the post remain |

## Left out

- Flask routing, templates, `flash`, redirects, `app.run`, logging and the secret key are request-layer glue. The session values a handler reads (`user_id`, `user_name`) are method parameters.
- The `admin_required` decorator (app.py:298-312) checks the session before the admin handlers run. There is no session in the model, so the admin methods model the bodies of the decorated functions.
- `logout` and `admin_settings` only touch the session or render a page.
- `werkzeug`'s salted hash is modelled as an ideal, collision-free function of the password. Salting and one-wayness are not modelled.
- `datetime.now()` is the `now` parameter; seeding stamps all five posts with one `now`.
- The timestamp sorts of `index`, `profile`, the dashboard's recent posts and `admin_posts` are left out, as is the user record `admin_posts` attaches to each post: they order or decorate output by wall-clock values.
- Views.Profile: returns the user's posts in store order rather than sorted newest first, because timestamps are opaque here.
- Views.Dashboard: has no `recent_posts` field; that list is a timestamp sort.
- Store.Store.FindByEmail: scans the users in an unspecified order where Python scans `users.values()` in insertion order. The two agree because emails are unique.
- Store.Store.EditProfile: an absent session user returns `NoSuchUser` without change, where Python raises `KeyError` at app.py:266. The GET branch of `edit_profile` is a read only.
- Store.Store.CreatePost: keeps `Consistent` only when the session's user is live and its name is current, because the handler checks neither.
- The browser script's DOM and event code, tooltips, toasts, `localStorage`, `debounce` and `fadeIn`/`fadeOut` are I/O, timers and floating point.
- FormUtils.CounterLabel: `maxLength` is `null` or an integer; non-integer and non-number arguments are not modelled.
- FormUtils.JsInt: writes every digit, where JavaScript writes integers of magnitude 10^21 or more in exponent form ("1e+21"); a limit that large is not modelled.
- Form fields missing from a request, which make Flask answer 400, are not modelled; every field arrives as a string.

## Findings

| source | as written | input that shows it | evidently intended | confidence | as-written member | corrected member |
|---|---|---|---|---|---|---|
| app.py:81-103 | the demo posts name authors 1, 2, 3, 4, 1, written as if the first demo account had id 1; but the administrator is created first and takes id 1 | the seeded store: posts 1 and 5 show "Admin User", Rahul Gupta gets the design post, and Sneha Reddy (id 5) has no post | author ids 2, 3, 4, 5, 2, each post going to the account whose profile it matches | medium, not executed | Store.SeedPostAuthorsAsWritten | Store.IntendedSeedPostAuthors |

`Store.Store.InitSampleData` seeds the posts as written, because it models the
code. `Store.IntendedSamplePosts` holds the corrected author ids, and
`Store.Store.SeedPosts` accepts either list.
