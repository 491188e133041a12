# Newsletter subscriptions, modelled in Dafny

This project models the core of a small newsletter site. Visitors subscribe with an email address, a display name and a choice of five newsletters (kost, mindset, kunskap, veckans pass, jaine). Administrators list, filter, sort, edit, bulk-update and delete subscribers.

The model covers five parts:

- **`SubscriptionService`** (`subscription_service.dfy`) checks and normalises what a user typed, then calls the subscriber store. `Subscribe` and `UpdateSubscriber` report their outcome as a `SubscriptionResult`, and write nothing unless they succeed. Listing returns the rows, lookup an optional subscriber, the bulk update a count and deletion a flag. Only a successful `Subscribe` advances the store's id counter, so a deleted id is never handed out again.
- **`EmailRules`** (`email_rules.dfy`) holds the service's pure helpers:
  - the email pattern, as a ghost existential predicate that reads it the way a regular-expression matcher does, plus a deterministic decision procedure proved equivalent to it;
  - email validation;
  - email normalisation (lower-case, then strip);
  - name normalisation (strip, default "Subscriber").
- **`Text`** (`text.dfy`) holds the parts of Python's `str` that the code relies on: `isspace`, `strip`, `lower` and string ordering.
- **`SubscriberStore`** (`subscriber_store.dfy`) is the id-keyed store the service is written against. It has:
  - rows under increasing ids, with a unique index on the email;
  - five flags per row;
  - insert, update, delete and bulk flag update;
  - the listing, filtered by one newsletter and sorted in one of six orders.
- **`SubscriberRepository`** (`subscriber_repository.dfy`) and **`UserRepository`** (`user_repository.dfy`) are the in-memory repositories of the code base. The first is a dictionary from email to subscriber. The second is a dictionary from username to admin `User`, whose iteration order is kept explicitly.

Objects that the code updates in place are Dafny classes with `modifies` frames and a `Valid()` invariant: the store, the repositories and the service. `User` is a class too, since `set_password` changes it in place, but it has no invariant to keep. Everything else is datatypes and functions.

### Where the model differs from the code

- **Default repository.** The service's default repository is the in-memory `SubscriberRepository()` (app/business/services/subscription_service.py:19). That class has no `find_by_id`, `update`, `delete`, `update_newsletters_bulk` or `get_all`, and its `save` takes a record, not `(email, name, newsletters)`. So a service built without an argument could not run most of its own operations. The model follows the calls the service actually makes: its default is an empty `SubscriberStore`, whose behaviour comes from tests/unit/test_subscriber_repository.py.
- **The `$` anchor.** The pattern's `$` also matches before a final newline. Validation applies the pattern to the stripped email, and stripping removes newlines, so that case cannot arise and the model does not represent it.

## Model

| member | source | states |
|---|---|---|
| Text.ToLower | app/business/services/subscription_service.py:43 | `lower()`: same length; every character is mapped by the ASCII lower-casing; no upper-case letter is left |
| Text.Trim | app/business/services/subscription_service.py:36 | `strip()` is the slice of the input between its leading and trailing whitespace; it is empty exactly when the input is blank; a non-empty result neither starts nor ends with whitespace |
| Text.TrimUnique | app/business/services/subscription_service.py:48 | any cut of a string into a blank head, a body without whitespace at its ends and a blank tail is the one `strip()` makes |
| Text.TrimToLower | app/business/services/subscription_service.py:43 | `s.lower().strip() == s.strip().lower()` |
| Text.TrimIdempotent | app/business/services/subscription_service.py:48 | stripping twice is stripping once |
| Text.ToLowerIdempotent | app/business/services/subscription_service.py:43 | lower-casing twice is lower-casing once |
| Text.LexLeTotal | tests/unit/test_subscriber_repository.py:100-111 | the string order used for sorting by name and email is total |
| Text.LexLeTransitive | tests/unit/test_subscriber_repository.py:100-111 | that order is transitive |
| Text.LexLeAntisymmetric | tests/unit/test_subscriber_repository.py:100-111 | that order is antisymmetric |
| EmailRules.EmailFormatIsPattern | app/business/services/subscription_service.py:7 | the first-`@`/last-`.` check accepts exactly the strings `EMAIL_PATTERN` matches with some choice of `@` and `.` |
| EmailRules.ValidateEmail | app/business/services/subscription_service.py:35-40 | a blank email gives (False, "Email is required"); a non-blank email whose stripped form does not match the pattern gives (False, "Invalid email format"); otherwise (True, "") |
| EmailRules.NormalizeEmail | app/business/services/subscription_service.py:42-43 | `lower().strip()` equals stripping then lower-casing; the result has no upper-case letter and is empty exactly for a blank email |
| EmailRules.NormalizeEmailIdempotent | app/business/services/subscription_service.py:42-43 | normalising a normalised email changes nothing |
| EmailRules.PatternIgnoresCase | app/business/services/subscription_service.py:7 | a string matches the pattern iff its lower-cased form does |
| EmailRules.ValidationIgnoresNormalization | app/business/services/subscription_service.py:22-26 | validating the normalised email gives the same verdict and message as validating the raw one; with it, `Subscribe` and `UpdateSubscriber` ensure that every email the service writes is valid |
| EmailRules.NormalizeName | app/business/services/subscription_service.py:45-48 | a missing or blank name becomes "Subscriber"; any other name is stripped; the result is never empty and has no whitespace at its ends |
| EmailRules.NormalizeNameIdempotent | app/business/services/subscription_service.py:45-48 | normalising a normalised name changes nothing |
| EmailRules.BlankEmailExamples | tests/unit/test_regression.py:153-169 | "" and "   " are refused with "Email is required" |
| EmailRules.MalformedEmailExample | tests/unit/test_regression.py:171-178 | "not-an-email" is refused with "Invalid email format" |
| EmailRules.AcceptedEmailExample | tests/unit/test_regression.py:180-186 | "user@example.com" is accepted with no message |
| EmailRules.BlankNameExamples | tests/unit/test_regression.py:24-36 | "" and "   " become "Subscriber" |
| EmailRules.PaddedNameExample | tests/unit/test_regression.py:38-43 | "  John Doe  " becomes "John Doe" |
| SubscriberStore.NewsletterNamed | tests/unit/test_subscriber_repository.py:113-124 | a filter name maps to the newsletter with that key, and to none when no newsletter has that key |
| SubscriberStore.NewsletterNamedKey | tests/unit/test_subscriber_repository.py:113-124 | every newsletter's key names that newsletter |
| SubscriberStore.FlagsFrom | tests/unit/test_subscriber_repository.py:8-21 | a new row's flag for each newsletter is on exactly when the selections map its key to True; no selections means all five off |
| SubscriberStore.ApplyUpdates | tests/unit/test_subscriber_repository.py:189-209 | a bulk update sets exactly the flags whose key is present with a value and keeps all others |
| SubscriberStore.ApplyUpdatesIdempotent | tests/unit/test_subscriber_repository.py:189-209 | applying the same flag updates twice equals applying them once |
| SubscriberStore.RefreshedIdempotent | tests/unit/test_subscriber_repository.py:189-209 | refreshing a subscriber twice with the same updates equals refreshing once |
| SubscriberStore.RefreshRows | tests/unit/test_subscriber_repository.py:189-209 | after a bulk update the same ids are stored; listed rows are refreshed and the others are kept |
| SubscriberStore.RefreshRowsIdempotent | tests/unit/test_subscriber_repository.py:189-209 | repeating a bulk update with the same ids and values changes nothing |
| SubscriberStore.ParseSortOrder | tests/unit/test_subscriber_repository.py:89-111 | a `sort_by` value names its order; any unrecognised value means newest first |
| SubscriberStore.ParseSortName | tests/unit/test_subscriber_repository.py:89-111 | each order's name parses back to that order |
| SubscriberStore.BeforeTotal | tests/unit/test_subscriber_repository.py:89-111 | any two subscribers are comparable in each of the six orders |
| SubscriberStore.BeforeTransitive | tests/unit/test_subscriber_repository.py:89-111 | each of the six orders is transitive |
| SubscriberStore.Insert | tests/unit/test_subscriber_repository.py:89-111 | inserting adds exactly that subscriber to the listing's multiset |
| SubscriberStore.InsertMembers | tests/unit/test_subscriber_repository.py:89-111 | after inserting, every element is the new subscriber or was already there |
| SubscriberStore.InsertSorted | tests/unit/test_subscriber_repository.py:89-111 | inserting into a sorted listing keeps it sorted |
| SubscriberStore.InsertDistinct | tests/unit/test_subscriber_repository.py:89-111 | inserting a subscriber with a new id keeps ids distinct |
| SubscriberStore.SortBy | tests/unit/test_subscriber_repository.py:89-111 | sorting gives a sorted permutation of its input |
| SubscriberStore.SortByDistinct | tests/unit/test_subscriber_repository.py:89-111 | sorting keeps ids distinct |
| SubscriberStore.FilterOf | tests/unit/test_subscriber_repository.py:113-124 | a filter is applied exactly when the argument names a newsletter, and then it is that newsletter |
| SubscriberStore.SubscriberStore.EmailsUnique | app/data/models.py:28 | the unique email column: no two stored rows share an email |
| SubscriberStore.SubscriberStore.constructor | tests/unit/test_subscriber_repository.py:8-17 | an empty store; the first id handed out is 1 |
| SubscriberStore.SubscriberStore.FindById | tests/unit/test_subscriber_repository.py:57-76 | the row stored under that id, which carries that id, or nothing when there is none |
| SubscriberStore.SubscriberStore.FindByEmail | tests/unit/test_subscriber_repository.py:23-43 | the stored row holding that email, or nothing when no row holds it |
| SubscriberStore.SubscriberStore.Exists | tests/unit/test_subscriber_repository.py:45-55 | true exactly when some stored row holds the email |
| SubscriberStore.SubscriberStore.Save | tests/unit/test_subscriber_repository.py:8-21 | adds one row under a fresh id with the given email, name and flags; an email already stored is refused and nothing is written |
| SubscriberStore.SubscriberStore.Update | tests/unit/test_subscriber_repository.py:126-165 | rewrites email and name; rewrites all five flags when selections are given and keeps them otherwise; a missing id, or an email another row holds, writes nothing |
| SubscriberStore.SubscriberStore.Delete | tests/unit/test_subscriber_repository.py:167-187 | removes exactly that row; reports whether it existed |
| SubscriberStore.SubscriberStore.UpdateNewslettersBulk | tests/unit/test_subscriber_repository.py:189-209 | refreshes exactly the listed stored rows and keeps the rest; returns how many distinct stored ids were listed |
| SubscriberStore.SubscriberStore.Collect | tests/unit/test_subscriber_repository.py:78-87 | every stored row from an id upward that passes the filter, each once, in increasing id order |
| SubscriberStore.SubscriberStore.GetAll | tests/unit/test_subscriber_repository.py:78-124 | exactly the stored rows passing the filter, each once, sorted by the requested order |
| SubscriberRepository.SubscriberRepository.constructor | app/data/repositories/subscriber_repository.py:11-12 | starts with no subscribers; no email exists |
| SubscriberRepository.SubscriberRepository.Save | app/data/repositories/subscriber_repository.py:14-16 | files the subscriber under its email, replacing any subscriber there, and returns it; other emails are unaffected |
| SubscriberRepository.SubscriberRepository.FindByEmail | app/data/repositories/subscriber_repository.py:18-19 | the subscriber filed under the email, whose email it is, or nothing |
| SubscriberRepository.SubscriberRepository.Exists | app/data/repositories/subscriber_repository.py:21-22 | true exactly when a lookup by that email finds a subscriber |
| UserRepository.User.constructor | app/data/repositories/user_repository.py:9-20 | a new account has the given username, password hash and active flag; by default no password hash, and active |
| UserRepository.User.SetPassword | app/data/repositories/user_repository.py:25-31 | stores the hash of the password; nothing else about the user changes |
| UserRepository.UserRepository.constructor | app/data/repositories/user_repository.py:48-49 | starts with no users; listing them gives nothing |
| UserRepository.UserRepository.Save | app/data/repositories/user_repository.py:51-54 | files the user under its username, replacing any user there, and returns it; a replaced username keeps its place in the order and a new one goes last; other usernames are unaffected |
| UserRepository.UserRepository.FindByUsername | app/data/repositories/user_repository.py:56-58 | the user filed under that username, or nothing when there is none |
| UserRepository.UserRepository.Exists | app/data/repositories/user_repository.py:60-62 | true exactly when a lookup by that username finds a user |
| UserRepository.UserRepository.GetAll | app/data/repositories/user_repository.py:64-66 | one user per stored username, in the order usernames were first saved; every stored user appears |
| SubscriptionService.SubscriptionService.constructor | app/business/services/subscription_service.py:18-19 | uses the given store, or a new empty one |
| SubscriptionService.SubscriptionService.Subscribe | app/business/services/subscription_service.py:21-33 | an invalid email fails with the validation message; an already-stored normalised email fails with "Email already subscribed"; neither writes anything; otherwise exactly one row is added under the store's next id, holding the normalised email, normalised name and selected newsletters, and the id counter moves past it; that email is valid |
| SubscriptionService.SubscriptionService.GetAllSubscribers | app/business/services/subscription_service.py:50-51 | exactly the stored subscribers passing the filter, each once, sorted as asked (newest first by default) |
| SubscriptionService.SubscriptionService.GetSubscriber | app/business/services/subscription_service.py:53-54 | the subscriber with that id, or nothing |
| SubscriptionService.SubscriptionService.UpdateSubscriber | app/business/services/subscription_service.py:56-71 | an invalid email fails with the validation message; "Email already in use" is reported iff another subscriber holds the normalised email; otherwise a missing id gives "Subscriber not found"; keeping one's own email succeeds; a success rewrites exactly that row, and the email it writes is valid; failures write nothing; the id counter is kept |
| SubscriptionService.SubscriptionService.UpdateNewslettersBulk | app/business/services/subscription_service.py:73-74 | refreshes exactly the listed stored subscribers and returns how many distinct stored ids were listed; the id counter is kept |
| SubscriptionService.SubscriptionService.DeleteSubscriber | app/business/services/subscription_service.py:76-77 | removes exactly that subscriber; reports whether there was one; the id counter is kept, so the id is not handed out again |

## Left out

- Text.ToLower: only ASCII upper-case letters are mapped. Python's `str.lower` also maps other scripts' letters. The email pattern admits only ASCII, but normalising an email with other letters gives a different string here than in Python.
- SubscriberStore.Before: the date orders sort by id, not by the `subscribed_at` timestamp. The store hands out ids in creation order, so the two agree unless the clock goes backwards.
- SubscriberStore.Before: names and emails are compared by code point. The database's collation is not in the source and may order mixed-case names differently: under a case-insensitive collation "alpha" comes before "Zebra", while here "Zebra" comes first.
- SubscriberRepository.Subscriber: it is a value, while the source's dataclass is a mutable object that the dictionary shares with its caller. If a caller changed a saved subscriber's email, Python's lookup under the old email would return an object with the new email; the model cannot express that. No code in the core changes a saved subscriber.
- SubscriberStore.FilterOf: a `newsletter_filter` that is missing, empty or names no newsletter means "no filter". The store's own code is not part of this model, so this reading is an assumption.
- SubscriberStore.SubscriberStore.UpdateNewslettersBulk: it is one set-based update, with the count taken as the number of distinct stored ids listed. This is how an SQL `UPDATE ... WHERE id IN (...)` counts. The store's own loop, if it has one, is not part of this model.
- SubscriberStore.SubscriberStore.Update: a database would raise on a unique-index violation. Here that outcome is returned as "nothing updated" and nothing is written. The service checks for this case before calling, so it never reaches the store.
- SubscriberStore.SubscriberStore.Save: a refused duplicate returns nothing instead of raising. The service checks `exists` first, so it never reaches this path.
- The store's source (the database-backed subscriber repository) is not part of this model. Its contracts come from tests/unit/test_subscriber_repository.py.
- Timestamps (`subscribed_at`, `created_at`) are left out: they come from the clock.
- Password hashing and checking come from a library. `User.SetPassword` takes the hash function as a parameter. `UserRepository.User.CheckPassword` hands the stored hash and the password to a verifier parameter, so it has no contract of its own.
- The ORM model's `get_newsletters` and `get_newsletter_count`, and its column lengths (`String(120)`), are not part of this model.
- Left out as transport or setup, not logic: the HTTP routes, templates, the Flask application factory, configuration and migrations.
- Concurrency between requests is not modelled: each operation runs on its own.
