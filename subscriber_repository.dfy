/**
 * The in-memory subscriber repository of
 * app/data/repositories/subscriber_repository.py: a dictionary from email
 * to subscriber, with save, lookup by email and an existence test.
 */
module SubscriberRepository {
  import opened Wrappers

  /** The `Subscriber` dataclass: an email and a display name. */
  datatype Subscriber = Subscriber(email: string, name: string)

  class SubscriberRepository {
    /** `self._subscribers`. */
    var subscribers: map<string, Subscriber>

    /** Every subscriber is filed under its own email, so there is at most
        one subscriber per email. */
    ghost predicate Valid()
      reads this
    {
      forall e | e in subscribers :: subscribers[e].email == e
    }

    constructor ()
      ensures Valid()
      ensures subscribers == map[]
      ensures forall e :: !Exists(e)
    {
      subscribers := map[];
    }

    /** Files the subscriber under its email, replacing any subscriber
        already there, and hands the same subscriber back. */
    method Save(subscriber: Subscriber) returns (r: Subscriber)
      requires Valid()
      modifies this
      ensures Valid()
      ensures r == subscriber
      ensures subscribers == old(subscribers)[subscriber.email := subscriber]
      ensures FindByEmail(subscriber.email) == Some(subscriber)
      ensures forall e | e != subscriber.email :: FindByEmail(e) == old(FindByEmail(e))
    {
      subscribers := subscribers[subscriber.email := subscriber];
      r := subscriber;
    }

    /** `dict.get`: the subscriber filed under `email`, whose email it is. */
    function FindByEmail(email: string): (r: Option<Subscriber>)
      reads this
      requires Valid()
      ensures r.None? <==> email !in subscribers
      ensures r.Some? ==> r.value == subscribers[email] && r.value.email == email
    {
      if email in subscribers then Some(subscribers[email]) else None
    }

    function Exists(email: string): (r: bool)
      reads this
      requires Valid()
      ensures r <==> FindByEmail(email).Some?
    {
      email in subscribers
    }
  }
}
