/**
 * The relay's process-wide state and its four HTTP handlers. Each handler is
 * one atomic step on the registry (the read-write lock that makes it so is
 * not modelled). Request bodies arrive already read and decoded as a `Body`;
 * the outcome of each outbound `http.Post` is the oracle `postFails`.
 */
module PubSub {
  import opened StringOrder
  import opened Search
  import opened Sorting
  import opened Delivery
  import opened Handlers

  class Relay {
    /** `subscribersSlice`: the registered callback URLs, in ascending order. */
    var subscribers: seq<string>
    /** The URL validator `IsUrl`, which rests on `url.Parse`. */
    const isUrl: string -> bool

    ghost predicate Valid()
      reads this
    {
      RegistryInvariant(subscribers, isUrl)
    }

    /** The registry at process start: empty. */
    constructor (isUrl: string -> bool)
      ensures Valid()
      ensures subscribers == [] && this.isUrl == isUrl
    {
      subscribers := [];
      this.isUrl := isUrl;
    }

    /**
     * `POST /subscribe`. A valid URL above every member is appended and the
     * registry re-sorted (200); any other valid URL gets 403; an invalid URL
     * or an undecodable body 400; an unreadable body 500.
     */
    method Subscribe(body: Body) returns (status: Status)
      requires Valid()
      modifies this
      ensures Valid()
      ensures Outcome(status, subscribers) == SubscribeOutcome(old(subscribers), body, isUrl)
      ensures status == OK <==>
        body.Decoded? && isUrl(body.url)
        && forall k :: 0 <= k < |old(subscribers)| ==> Less(old(subscribers)[k], body.url)
      ensures subscribers == if status == OK then old(subscribers) + [body.url] else old(subscribers)
    {
      SubscribeAppendsGreatest(subscribers, body, isUrl);
      match body
      case Unreadable =>
        status := InternalServerError;
      case Malformed =>
        status := BadRequest;
      case Decoded(url) =>
        if !isUrl(url) {
          status := BadRequest;
          return;
        }
        StrictlySortedIff(subscribers);
        var index := SearchStrings(subscribers, url);
        if index == |subscribers| {
          subscribers := subscribers + [url];
          subscribers := SortStrings(subscribers);
          status := OK;
        } else {
          status := Forbidden;
        }
    }

    /**
     * `POST /unsubscribe`. 404 when the URL is above every member; otherwise
     * the member at the search index is spliced out (200). No validity check.
     */
    method Unsubscribe(body: Body) returns (status: Status)
      requires Valid()
      modifies this
      ensures Valid()
      ensures Outcome(status, subscribers) == UnsubscribeOutcome(old(subscribers), body)
      ensures status == NotFound <==>
        body.Decoded? && forall k :: 0 <= k < |old(subscribers)| ==> Less(old(subscribers)[k], body.url)
      ensures body.Decoded? ==> body.url !in subscribers
      ensures |subscribers| == if status == OK then |old(subscribers)| - 1 else |old(subscribers)|
    {
      UnsubscribeRemovesAtSearchIndex(subscribers, body, isUrl);
      match body
      case Unreadable =>
        status := InternalServerError;
      case Malformed =>
        status := BadRequest;
      case Decoded(url) =>
        StrictlySortedIff(subscribers);
        var index := SearchStrings(subscribers, url);
        if index == |subscribers| {
          status := NotFound;
        } else {
          subscribers := subscribers[..index] + subscribers[index + 1..];
          status := OK;
        }
    }

    /**
     * The `subscribe` handler with the missing equality check added: 403 only
     * for a URL that is already a member, and otherwise the URL is added.
     */
    method CheckedSubscribe(body: Body) returns (status: Status)
      requires Valid()
      modifies this
      ensures Valid()
      ensures Outcome(status, subscribers) == CheckedSubscribeOutcome(old(subscribers), body, isUrl)
      ensures status == OK <==> body.Decoded? && isUrl(body.url) && body.url !in old(subscribers)
      ensures status == OK ==> forall u :: u in subscribers <==> u in old(subscribers) || u == body.url
      ensures status != OK ==> subscribers == old(subscribers)
    {
      CheckedSubscribeInserts(subscribers, body, isUrl);
      match body
      case Unreadable =>
        status := InternalServerError;
      case Malformed =>
        status := BadRequest;
      case Decoded(url) =>
        if !isUrl(url) {
          status := BadRequest;
          return;
        }
        StrictlySortedIff(subscribers);
        var index := SearchStrings(subscribers, url);
        if index < |subscribers| && subscribers[index] == url {
          status := Forbidden;
        } else {
          subscribers := SortStrings(subscribers + [url]);
          status := OK;
        }
    }

    /**
     * The `unsubscribe` handler with the missing equality check added: 404
     * for a URL that is not a member, and otherwise exactly that URL is removed.
     */
    method CheckedUnsubscribe(body: Body) returns (status: Status)
      requires Valid()
      modifies this
      ensures Valid()
      ensures Outcome(status, subscribers) == CheckedUnsubscribeOutcome(old(subscribers), body)
      ensures status == OK <==> body.Decoded? && body.url in old(subscribers)
      ensures forall u :: u in subscribers <==> u in old(subscribers) && !(body.Decoded? && u == body.url)
    {
      CheckedUnsubscribeRemoves(subscribers, body, isUrl);
      match body
      case Unreadable =>
        status := InternalServerError;
      case Malformed =>
        status := BadRequest;
      case Decoded(url) =>
        StrictlySortedIff(subscribers);
        var index := SearchStrings(subscribers, url);
        if index == |subscribers| || subscribers[index] != url {
          status := NotFound;
        } else {
          subscribers := subscribers[..index] + subscribers[index + 1..];
          status := OK;
        }
    }

    /**
     * `POST /publish`. Delivers to every member in registry order and
     * collects those whose delivery errored: 409 with that list when it is
     * not empty, 200 otherwise, 500 when the body could not be read. The
     * registry is not changed.
     */
    method Publish(bodyRead: bool, postFails: string -> bool) returns (status: Status)
      ensures !bodyRead ==> status == InternalServerError
      ensures bodyRead ==> status == if Failures(subscribers, postFails) == [] then OK
                                     else Conflict(Failures(subscribers, postFails))
      ensures status.Conflict? <==>
        bodyRead && exists k :: 0 <= k < |subscribers| && postFails(subscribers[k])
    {
      if !bodyRead {
        return InternalServerError;
      }
      var failed: seq<string> := [];
      for i := 0 to |subscribers|
        invariant failed == Failures(subscribers[..i], postFails)
      {
        assert subscribers[..i + 1][..i] == subscribers[..i];
        if postFails(subscribers[i]) {
          failed := failed + [subscribers[i]];
        }
      }
      assert subscribers[..|subscribers|] == subscribers;
      if exists k :: 0 <= k < |subscribers| && postFails(subscribers[k]) {
        var k :| 0 <= k < |subscribers| && postFails(subscribers[k]);
        assert subscribers[k] in failed;
      }
      if |failed| > 0 {
        assert failed[0] in subscribers;
        status := Conflict(failed);
      } else {
        status := OK;
      }
    }

    /** `GET /subscriber`: 200 with the members, ascending and without duplicates. */
    method List() returns (status: Status, urls: seq<string>)
      requires Valid()
      ensures status == OK && urls == subscribers
      ensures StrictlySorted(urls) && Sorted(urls)
    {
      StrictlySortedIff(subscribers);
      status, urls := OK, subscribers;
    }
  }
}
