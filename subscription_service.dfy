/**
 * `SubscriptionService` of app/business/services/subscription_service.py:
 * validates and normalises what a visitor or an admin typed, refuses
 * duplicate emails, and only then writes to the subscriber store.
 * `Subscribe` and `UpdateSubscriber` report their outcome as a
 * `SubscriptionResult`; the other operations return the rows, the
 * subscriber, a count or a flag. Ids come from the store's counter, which
 * only `Subscribe` advances, so a deleted id is never handed out again.
 */
module SubscriptionService {
  import opened Wrappers
  import opened Text
  import opened EmailRules
  import opened SubscriberStore

  const EmailAlreadySubscribed := "Email already subscribed"
  const EmailAlreadyInUse := "Email already in use"
  const SubscriberNotFound := "Subscriber not found"

  /** `SubscriptionResult(success, error="", subscriber=None)`. */
  datatype SubscriptionResult = SubscriptionResult(success: bool, error: string, subscriber: Option<Subscriber>)

  function Failure(error: string): SubscriptionResult {
    SubscriptionResult(false, error, None)
  }

  function Success(subscriber: Subscriber): SubscriptionResult {
    SubscriptionResult(true, "", Some(subscriber))
  }

  /** A result is a success exactly when it has no message and carries the
      subscriber. */
  predicate WellFormed(r: SubscriptionResult) {
    (r.success <==> r.error == "") && (r.success <==> r.subscriber.Some?)
  }

  class SubscriptionService {
    const repository: SubscriberStore

    ghost predicate Valid()
      reads repository
    {
      repository.Valid()
    }

    /** Uses the given store, or a new empty one when none is given. */
    constructor (repository: SubscriberStore?)
      requires repository != null ==> repository.Valid()
      ensures Valid()
      ensures repository != null ==> this.repository == repository
      ensures repository == null ==> fresh(this.repository) && this.repository.rows == map[]
    {
      if repository != null {
        this.repository := repository;
      } else {
        this.repository := new SubscriberStore();
      }
    }

    /** Subscribes a visitor. An invalid email fails with the validation
        message and an email already stored fails with "Email already
        subscribed"; neither writes anything. Otherwise exactly one row is
        added, holding the normalised email and name and the selected
        newsletters, and that email passes validation again. */
    method Subscribe(email: string, name: string, newsletters: Option<map<string, bool>> := None)
      returns (r: SubscriptionResult)
      requires Valid()
      modifies repository
      ensures Valid()
      ensures WellFormed(r)
      ensures !r.success ==> unchanged(repository)
      ensures !ValidateEmail(email).0 ==> r == Failure(ValidateEmail(email).1)
      ensures ValidateEmail(email).0 && old(repository.Exists(NormalizeEmail(email))) ==>
        r == Failure(EmailAlreadySubscribed)
      ensures ValidateEmail(email).0 && !old(repository.Exists(NormalizeEmail(email))) ==>
        && r == Success(Subscriber(old(repository.nextId), NormalizeEmail(email),
                                   NormalizeName(Some(name)), FlagsFrom(newsletters)))
        && old(repository.nextId) !in old(repository.rows)
        && repository.rows == old(repository.rows)[old(repository.nextId) := r.subscriber.value]
        && |repository.rows| == |old(repository.rows)| + 1
        && repository.nextId == old(repository.nextId) + 1
      ensures r.success ==>
        && ValidateEmail(r.subscriber.value.email) == (true, "")
        && repository.Exists(r.subscriber.value.email)
    {
      var (isValid, error) := ValidateEmail(email);
      if !isValid {
        return Failure(error);
      }
      var normalizedEmail := NormalizeEmail(email);
      var normalizedName := NormalizeName(Some(name));
      if repository.Exists(normalizedEmail) {
        return Failure(EmailAlreadySubscribed);
      }
      var saved := repository.Save(normalizedEmail, normalizedName, newsletters);
      ValidationIgnoresNormalization(email);
      r := Success(saved.value);
      assert repository.rows[saved.value.id].email == normalizedEmail;
    }

    /** `get_subscriber`: the subscriber with that id, or nothing. */
    function GetSubscriber(id: int): (r: Option<Subscriber>)
      reads repository
      requires Valid()
      ensures r.Some? <==> id in repository.rows
      ensures r.Some? ==> r.value == repository.rows[id] && r.value.id == id
    {
      repository.FindById(id)
    }

    /** `get_all_subscribers`: every stored subscriber that passes the
        filter, each once, sorted as asked (newest first by default). */
    function GetAllSubscribers(sortBy: string := "date_desc", newsletterFilter: Option<string> := None)
      : (r: seq<Subscriber>)
      reads repository
      requires Valid()
      ensures forall x | x in r :: x.id in repository.rows && repository.rows[x.id] == x
      ensures forall x | x in r :: Passes(FilterOf(newsletterFilter), x)
      ensures forall id | id in repository.rows && Passes(FilterOf(newsletterFilter), repository.rows[id]) ::
        repository.rows[id] in r
      ensures DistinctIds(r)
      ensures Sorted(ParseSortOrder(sortBy), r)
    {
      repository.GetAll(sortBy, newsletterFilter)
    }

    /** Edits a subscriber. An invalid email fails with the validation
        message; an email that a DIFFERENT subscriber holds fails with
        "Email already in use" (and only then); a missing id fails with
        "Subscriber not found". Keeping one's own email is allowed. No
        failure writes anything; a success rewrites exactly that row, and
        the email it writes passes validation again. */
    method UpdateSubscriber(id: int, email: string, name: string, newsletters: Option<map<string, bool>> := None)
      returns (r: SubscriptionResult)
      requires Valid()
      modifies repository
      ensures Valid()
      ensures WellFormed(r)
      ensures !r.success ==> unchanged(repository)
      ensures !ValidateEmail(email).0 ==> r == Failure(ValidateEmail(email).1)
      ensures ValidateEmail(email).0 ==>
        (r.error == EmailAlreadyInUse <==> old(repository.OwnedByOther(NormalizeEmail(email), id)))
      ensures ValidateEmail(email).0 && !old(repository.OwnedByOther(NormalizeEmail(email), id)) ==>
        if id in old(repository.rows) then
          && r == Success(Subscriber(id, NormalizeEmail(email), NormalizeName(Some(name)),
                                     if newsletters.None? then old(repository.rows[id].flags) else FlagsFrom(newsletters)))
          && repository.rows == old(repository.rows)[id := r.subscriber.value]
        else
          r == Failure(SubscriberNotFound)
      ensures (ValidateEmail(email).0 && id in old(repository.rows)
               && old(repository.rows[id].email) == NormalizeEmail(email)) ==> r.success
      ensures r.success ==> ValidateEmail(r.subscriber.value.email) == (true, "")
      ensures repository.nextId == old(repository.nextId)
    {
      ValidationIgnoresNormalization(email);
      var (isValid, error) := ValidateEmail(email);
      if !isValid {
        return Failure(error);
      }
      var normalizedEmail := NormalizeEmail(email);
      var normalizedName := NormalizeName(Some(name));
      var existing := repository.FindByEmail(normalizedEmail);
      if existing.Some? && existing.value.id != id {
        return Failure(EmailAlreadyInUse);
      }
      assert !repository.OwnedByOther(normalizedEmail, id);
      var updated := repository.Update(id, normalizedEmail, normalizedName, newsletters);
      if updated.Some? {
        return Success(updated.value);
      }
      return Failure(SubscriberNotFound);
    }

    /** `update_newsletters_bulk`: see the store's bulk update. */
    method UpdateNewslettersBulk(ids: seq<int>, newsletters: map<string, Option<bool>>) returns (count: nat)
      requires Valid()
      modifies repository
      ensures Valid()
      ensures count == |set id | id in ids && id in old(repository.rows)|
      ensures repository.rows.Keys == old(repository.rows).Keys
      ensures forall id | id in repository.rows ::
        repository.rows[id] ==
          if id in ids then Refreshed(old(repository.rows)[id], newsletters) else old(repository.rows)[id]
      ensures repository.nextId == old(repository.nextId)
    {
      count := repository.UpdateNewslettersBulk(ids, newsletters);
    }

    /** `delete_subscriber`: removes the subscriber; false when there was none. */
    method DeleteSubscriber(id: int) returns (deleted: bool)
      requires Valid()
      modifies repository
      ensures Valid()
      ensures deleted == (id in old(repository.rows))
      ensures repository.rows == old(repository.rows) - {id}
      ensures repository.nextId == old(repository.nextId)
    {
      deleted := repository.Delete(id);
    }
  }
}
