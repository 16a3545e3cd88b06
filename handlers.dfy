/**
 * What each registry handler does to the registry, as values: the status it
 * writes and the registry it leaves. `SubscribeOutcome` and
 * `UnsubscribeOutcome` follow main.go as written, where "found" means only
 * "the search index is not the end"; `CheckedSubscribeOutcome` and
 * `CheckedUnsubscribeOutcome` are the corrected handlers, which also compare
 * the element at the search index with the URL.
 */
module Handlers {
  import opened StringOrder
  import opened Search
  import opened Sorting

  /** What a handler obtained from its request body. */
  datatype Body = Unreadable | Malformed | Decoded(url: string)

  /** The status a handler writes; a 409 carries the failure list. */
  datatype Status =
    | OK
    | BadRequest
    | Forbidden
    | NotFound
    | Conflict(failed: seq<string>)
    | InternalServerError
  {
    function Code(): int
    {
      match this
      case OK => 200
      case BadRequest => 400
      case Forbidden => 403
      case NotFound => 404
      case Conflict(_) => 409
      case InternalServerError => 500
    }
  }

  datatype Outcome = Outcome(status: Status, registry: seq<string>)

  predicate AllUrls(s: seq<string>, isUrl: string -> bool)
  {
    forall k :: 0 <= k < |s| ==> isUrl(s[k])
  }

  /** The registry invariant: strictly ascending, and every member passed the validator. */
  predicate RegistryInvariant(s: seq<string>, isUrl: string -> bool)
  {
    StrictlySorted(s) && AllUrls(s, isUrl)
  }

  // ---------------------------------------------------------------------
  // The handlers as written

  /** `subscribe`: validate, search, and append-and-sort only at the end index. */
  function SubscribeOutcome(s: seq<string>, body: Body, isUrl: string -> bool): Outcome
  {
    match body
    case Unreadable => Outcome(InternalServerError, s)
    case Malformed => Outcome(BadRequest, s)
    case Decoded(url) =>
      if !isUrl(url) then Outcome(BadRequest, s)
      else if LowerBound(s, url) == |s| then Outcome(OK, SortStrings(s + [url]))
      else Outcome(Forbidden, s)
  }

  /** `unsubscribe`: search, and splice out whatever sits at an in-range index. */
  function UnsubscribeOutcome(s: seq<string>, body: Body): Outcome
  {
    match body
    case Unreadable => Outcome(InternalServerError, s)
    case Malformed => Outcome(BadRequest, s)
    case Decoded(url) =>
      var i := LowerBound(s, url);
      if i == |s| then Outcome(NotFound, s) else Outcome(OK, s[..i] + s[i + 1..])
  }

  /**
   * `subscribe` accepts exactly a valid URL above every member, and then the
   * registry is the old one with the URL at the end (the re-sort changes
   * nothing); every other outcome leaves the registry as it was. The
   * invariant is kept.
   */
  lemma SubscribeAppendsGreatest(s: seq<string>, body: Body, isUrl: string -> bool)
    requires RegistryInvariant(s, isUrl)
    ensures var o := SubscribeOutcome(s, body, isUrl);
      && (o.status == OK <==>
            body.Decoded? && isUrl(body.url) && forall k :: 0 <= k < |s| ==> Less(s[k], body.url))
      && o.registry == (if o.status == OK then s + [body.url] else s)
      && RegistryInvariant(o.registry, isUrl)
  {
    if body.Decoded? && isUrl(body.url) {
      var url := body.url;
      if LowerBound(s, url) == |s| {
        AppendGreatest(s, url);
        StrictlySortedIff(s + [url]);
        SortOfSorted(s + [url]);
      }
    }
  }

  /**
   * `subscribe` answers 403 exactly for a valid URL whose search index is
   * inside the registry; in particular every member is refused.
   */
  lemma SubscribeForbiddenAtSearchIndex(s: seq<string>, body: Body, isUrl: string -> bool)
    requires RegistryInvariant(s, isUrl)
    ensures var o := SubscribeOutcome(s, body, isUrl);
      && (o.status == Forbidden <==>
            body.Decoded? && isUrl(body.url) && LowerBound(s, body.url) < |s|)
      && (body.Decoded? && isUrl(body.url) && body.url in s ==> o == Outcome(Forbidden, s))
  {
    if body.Decoded? {
      MemberAtLowerBound(s, body.url);
    }
  }

  /** An invalid URL, or a body that could not be read or decoded, changes nothing. */
  lemma SubscribeRejectsInvalid(s: seq<string>, body: Body, isUrl: string -> bool)
    requires !body.Decoded? || !isUrl(body.url)
    ensures SubscribeOutcome(s, body, isUrl).registry == s
    ensures SubscribeOutcome(s, body, isUrl).status.Code() ==
      if body.Unreadable? then 500 else 400
  {
  }

  /**
   * `subscribe` refuses with 403 any valid URL that sorts below some member,
   * whether or not the URL is itself a member.
   */
  lemma SubscribeRefusesBelowMember(s: seq<string>, url: string, k: nat, isUrl: string -> bool)
    requires RegistryInvariant(s, isUrl) && isUrl(url)
    requires k < |s| && Less(url, s[k])
    ensures SubscribeOutcome(s, Decoded(url), isUrl) == Outcome(Forbidden, s)
  {
    LessAsymmetric(url, s[k]);
  }

  /** Registering the same URL twice: 200, then 403, and the URL is held once. */
  lemma SubscribeTwice(s: seq<string>, url: string, isUrl: string -> bool)
    requires RegistryInvariant(s, isUrl)
    requires SubscribeOutcome(s, Decoded(url), isUrl).status == OK
    ensures var t := SubscribeOutcome(s, Decoded(url), isUrl).registry;
      && SubscribeOutcome(t, Decoded(url), isUrl) == Outcome(Forbidden, t)
      && multiset(t)[url] == 1
  {
    SubscribeAppendsGreatest(s, Decoded(url), isUrl);
    var t := s + [url];
    LessIrreflexive(url);
    assert LowerBound(t, url) == |s| by {
      LowerBoundUnique(t, url, |s|);
    }
    assert url !in s;
    assert multiset(t) == multiset(s) + multiset{url};
  }

  /**
   * `unsubscribe` answers 404 exactly when the URL is above every member
   * (in particular on an empty registry), and then changes nothing. On 200 it
   * removes the one element at the search index, the first member that is
   * not below the URL: the length drops by one and the rest keep their order.
   * Afterwards the URL is not a member, and the invariant is kept.
   */
  lemma UnsubscribeRemovesAtSearchIndex(s: seq<string>, body: Body, isUrl: string -> bool)
    requires RegistryInvariant(s, isUrl)
    ensures var o := UnsubscribeOutcome(s, body);
      && (o.status == NotFound <==>
            body.Decoded? && forall k :: 0 <= k < |s| ==> Less(s[k], body.url))
      && (o.status == OK <==> body.Decoded? && LowerBound(s, body.url) < |s|)
      && (body.Decoded? && body.url in s ==> o.status == OK)
      && (o.status == OK ==>
            && body.Decoded?
            && var i := LowerBound(s, body.url);
            && i < |s| && !Less(s[i], body.url)
            && (forall k :: 0 <= k < i ==> Less(s[k], body.url))
            && o.registry == s[..i] + s[i + 1..])
      && (o.status != OK ==> o.registry == s)
      && |o.registry| == (if o.status == OK then |s| - 1 else |s|)
      && RegistryInvariant(o.registry, isUrl)
      && (body.Decoded? ==> body.url !in o.registry)
  {
    if body.Decoded? {
      var url := body.url;
      var i := LowerBound(s, url);
      MemberAtLowerBound(s, url);
      if i < |s| {
        assert !(forall k :: 0 <= k < |s| ==> Less(s[k], url));
        RemoveAt(s, i, isUrl);
        assert url !in s[..i] + s[i + 1..];
      }
    }
  }

  /** A body that could not be read (500) or decoded (400) leaves the registry untouched. */
  lemma UnsubscribeRejectsUndecoded(s: seq<string>, body: Body)
    requires !body.Decoded?
    ensures UnsubscribeOutcome(s, body).registry == s
    ensures UnsubscribeOutcome(s, body).status.Code() == if body.Unreadable? then 500 else 400
  {
  }

  /**
   * `unsubscribe` of a URL that is not a member but sorts below some member
   * answers 200 and removes the least member above the URL.
   */
  lemma UnsubscribeRemovesNextLarger(s: seq<string>, url: string, k: nat, isUrl: string -> bool)
    requires RegistryInvariant(s, isUrl) && url !in s
    requires k < |s| && Less(url, s[k])
    ensures var i := LowerBound(s, url);
      && i < |s| && Less(url, s[i])
      && (forall j :: 0 <= j < |s| && Less(url, s[j]) ==> !Less(s[j], s[i]))
      && UnsubscribeOutcome(s, Decoded(url)) == Outcome(OK, s[..i] + s[i + 1..])
      && s[i] !in UnsubscribeOutcome(s, Decoded(url)).registry
  {
    LessAsymmetric(url, s[k]);
    var i := LowerBound(s, url);
    LeastAboveAtLowerBound(s, url);
    RemoveAt(s, i, isUrl);
  }

  /** A 200 from `subscribe` followed by `unsubscribe` of the same URL restores the registry. */
  lemma SubscribeThenUnsubscribe(s: seq<string>, url: string, isUrl: string -> bool)
    requires RegistryInvariant(s, isUrl)
    requires SubscribeOutcome(s, Decoded(url), isUrl).status == OK
    ensures UnsubscribeOutcome(SubscribeOutcome(s, Decoded(url), isUrl).registry, Decoded(url))
         == Outcome(OK, s)
  {
    SubscribeAppendsGreatest(s, Decoded(url), isUrl);
    var t := s + [url];
    LessIrreflexive(url);
    LowerBoundUnique(t, url, |s|);
    assert t[..|s|] + t[|s| + 1..] == s;
  }

  /**
   * For a valid URL that is absent but below some member, `subscribe` then
   * `unsubscribe` does not restore the registry: the first answers 403, the
   * second 200, and a member is lost.
   */
  lemma RoundTripLosesMember(s: seq<string>, url: string, k: nat, isUrl: string -> bool)
    requires RegistryInvariant(s, isUrl) && isUrl(url) && url !in s
    requires k < |s| && Less(url, s[k])
    ensures var o1 := SubscribeOutcome(s, Decoded(url), isUrl);
      var o2 := UnsubscribeOutcome(o1.registry, Decoded(url));
      && o1.status == Forbidden
      && o2.status == OK
      && |o2.registry| == |s| - 1
  {
    SubscribeRefusesBelowMember(s, url, k, isUrl);
    UnsubscribeRemovesNextLarger(s, url, k, isUrl);
  }

  /** Registering "http://a" into ["http://b"] is refused with 403. */
  lemma SubscribeBelowMemberExample(isUrl: string -> bool)
    requires isUrl("http://a")
    ensures SubscribeOutcome(["http://b"], Decoded("http://a"), isUrl) == Outcome(Forbidden, ["http://b"])
  {
    LessPrefix("http://", 'a', 'b');
    LessAsymmetric("http://a", "http://b");
  }

  /** Deregistering "http://a" from ["http://b"] answers 200 and empties the registry. */
  lemma UnsubscribeAbsentExample()
    ensures UnsubscribeOutcome(["http://b"], Decoded("http://a")) == Outcome(OK, [])
  {
    LessPrefix("http://", 'a', 'b');
    LessAsymmetric("http://a", "http://b");
  }

  // ---------------------------------------------------------------------
  // The corrected handlers: equality is checked at the search index

  /** `subscribe` that refuses only a URL equal to the element at the search index. */
  function CheckedSubscribeOutcome(s: seq<string>, body: Body, isUrl: string -> bool): Outcome
  {
    match body
    case Unreadable => Outcome(InternalServerError, s)
    case Malformed => Outcome(BadRequest, s)
    case Decoded(url) =>
      if !isUrl(url) then Outcome(BadRequest, s)
      else
        var i := LowerBound(s, url);
        if i < |s| && s[i] == url then Outcome(Forbidden, s)
        else Outcome(OK, SortStrings(s + [url]))
  }

  /** `unsubscribe` that removes only a URL equal to the element at the search index. */
  function CheckedUnsubscribeOutcome(s: seq<string>, body: Body): Outcome
  {
    match body
    case Unreadable => Outcome(InternalServerError, s)
    case Malformed => Outcome(BadRequest, s)
    case Decoded(url) =>
      var i := LowerBound(s, url);
      if i == |s| || s[i] != url then Outcome(NotFound, s)
      else Outcome(OK, s[..i] + s[i + 1..])
  }

  /**
   * The corrected `subscribe` answers 200 exactly for a valid URL that is not
   * a member, and puts it at its sorted place; the members are then the old
   * ones plus the URL. Every other outcome changes nothing.
   */
  lemma CheckedSubscribeInserts(s: seq<string>, body: Body, isUrl: string -> bool)
    requires RegistryInvariant(s, isUrl)
    ensures var o := CheckedSubscribeOutcome(s, body, isUrl);
      && (o.status == OK <==> body.Decoded? && isUrl(body.url) && body.url !in s)
      && (o.status == OK ==>
            var i := LowerBound(s, body.url);
            o.registry == s[..i] + [body.url] + s[i..])
      && (o.status == OK ==> forall u :: u in o.registry <==> u in s || u == body.url)
      && (o.status != OK ==> o.registry == s)
      && RegistryInvariant(o.registry, isUrl)
  {
    if body.Decoded? && isUrl(body.url) {
      var url := body.url;
      MemberAtLowerBound(s, url);
      if url !in s {
        SortAppendIsInsertion(s, url, isUrl);
      }
    }
  }

  /**
   * The corrected `unsubscribe` answers 200 exactly when the URL is a member,
   * and removes that member and nothing else; otherwise it answers 404 (or
   * the body error) and changes nothing.
   */
  lemma CheckedUnsubscribeRemoves(s: seq<string>, body: Body, isUrl: string -> bool)
    requires RegistryInvariant(s, isUrl)
    ensures var o := CheckedUnsubscribeOutcome(s, body);
      && (o.status == OK <==> body.Decoded? && body.url in s)
      && (o.status == NotFound <==> body.Decoded? && body.url !in s)
      && (o.status == OK ==> forall u :: u in o.registry <==> u in s && u != body.url)
      && (o.status == OK ==> |o.registry| == |s| - 1)
      && (o.status != OK ==> o.registry == s)
      && RegistryInvariant(o.registry, isUrl)
  {
    if body.Decoded? {
      var url := body.url;
      var i := LowerBound(s, url);
      MemberAtLowerBound(s, url);
      if url in s {
        RemoveAt(s, i, isUrl);
      }
    }
  }

  /** With the correction, registering an absent valid URL and deregistering it restores the registry. */
  lemma CheckedRoundTrip(s: seq<string>, url: string, isUrl: string -> bool)
    requires RegistryInvariant(s, isUrl) && isUrl(url) && url !in s
    ensures var o1 := CheckedSubscribeOutcome(s, Decoded(url), isUrl);
      && o1.status == OK
      && CheckedUnsubscribeOutcome(o1.registry, Decoded(url)) == Outcome(OK, s)
  {
    CheckedSubscribeInserts(s, Decoded(url), isUrl);
    var i := LowerBound(s, url);
    CheckedUnsubscribeInserted(s, i, url);
  }

  /** The corrected `unsubscribe` takes back out a URL placed at its search index. */
  lemma CheckedUnsubscribeInserted(s: seq<string>, i: nat, url: string)
    requires i <= |s|
    requires forall k :: 0 <= k < i ==> Less(s[k], url)
    ensures CheckedUnsubscribeOutcome(s[..i] + [url] + s[i..], Decoded(url)) == Outcome(OK, s)
  {
    var t := s[..i] + [url] + s[i..];
    LowerBoundOfInsertion(s, i, url);
    assert t[i] == url;
    assert t[..i] == s[..i] && t[i + 1..] == s[i..];
    assert s[..i] + s[i..] == s;
  }

  // ---------------------------------------------------------------------
  // Helpers on strictly sorted sequences

  /** Appending an absent URL and sorting puts it at its search index. */
  lemma SortAppendIsInsertion(s: seq<string>, url: string, isUrl: string -> bool)
    requires RegistryInvariant(s, isUrl) && isUrl(url) && url !in s
    ensures var i := LowerBound(s, url);
      && SortStrings(s + [url]) == s[..i] + [url] + s[i..]
      && RegistryInvariant(s[..i] + [url] + s[i..], isUrl)
      && (forall u :: u in s[..i] + [url] + s[i..] <==> u in s || u == url)
  {
    var i := LowerBound(s, url);
    MemberAtLowerBound(s, url);
    var ins := s[..i] + [url] + s[i..];
    InsertAt(s, i, url, isUrl);
    StrictlySortedIff(ins);
    InsertionSameStrings(s, i, url);
    SortedPermutationUnique(SortStrings(s + [url]), ins);
  }

  lemma LowerBoundOfInsertion(s: seq<string>, i: nat, x: string)
    requires i <= |s|
    requires forall k :: 0 <= k < i ==> Less(s[k], x)
    ensures LowerBound(s[..i] + [x] + s[i..], x) == i
  {
    var t := s[..i] + [x] + s[i..];
    LessIrreflexive(x);
    forall k | 0 <= k < i ensures Less(t[k], x) {
      assert t[k] == s[k];
    }
    LowerBoundUnique(t, x, i);
  }

  lemma InsertionSameStrings(s: seq<string>, i: nat, x: string)
    requires i <= |s|
    ensures multiset(s[..i] + [x] + s[i..]) == multiset(s + [x])
    ensures forall u :: u in s[..i] + [x] + s[i..] <==> u in s || u == x
  {
    assert s == s[..i] + s[i..];
    assert multiset(s) == multiset(s[..i]) + multiset(s[i..]);
  }

  lemma LessPrefix(p: string, a: char, b: char)
    requires a < b
    ensures Less(p + [a], p + [b])
    decreases |p|
  {
    if p != [] {
      assert (p + [a])[1..] == p[1..] + [a];
      assert (p + [b])[1..] == p[1..] + [b];
      LessPrefix(p[1..], a, b);
    }
  }

  /** Appending an element above every member keeps strict ascent. */
  lemma AppendGreatest(s: seq<string>, x: string)
    requires StrictlySorted(s)
    requires forall k :: 0 <= k < |s| ==> Less(s[k], x)
    ensures StrictlySorted(s + [x])
  {
  }

  /** Splicing out one element keeps the invariant and removes exactly that member. */
  lemma RemoveAt(s: seq<string>, i: nat, isUrl: string -> bool)
    requires RegistryInvariant(s, isUrl) && i < |s|
    ensures RegistryInvariant(s[..i] + s[i + 1..], isUrl)
    ensures forall u :: u in s[..i] + s[i + 1..] <==> u in s && u != s[i]
  {
    var t := s[..i] + s[i + 1..];
    assert forall k :: 0 <= k < |t| ==> t[k] == if k < i then s[k] else s[k + 1];
    StrictlySortedIff(s);
    forall u ensures u in t <==> u in s && u != s[i] {
      if u in s && u != s[i] {
        var m :| 0 <= m < |s| && s[m] == u;
        assert m != i;
        assert t[if m < i then m else m - 1] == u;
      }
    }
  }

  /** Placing `x` between the members below it and those above it keeps strict ascent. */
  lemma InsertAt(s: seq<string>, i: nat, x: string, isUrl: string -> bool)
    requires RegistryInvariant(s, isUrl) && isUrl(x) && i <= |s|
    requires forall k :: 0 <= k < i ==> Less(s[k], x)
    requires forall k :: i <= k < |s| ==> Less(x, s[k])
    ensures RegistryInvariant(s[..i] + [x] + s[i..], isUrl)
  {
    var t := s[..i] + [x] + s[i..];
    assert forall k :: 0 <= k < |t| ==> t[k] == if k < i then s[k] else if k == i then x else s[k - 1];
    forall a, b | 0 <= a < b < |t| ensures Less(t[a], t[b]) {
      if a < i && b > i {
        LessTransitive(t[a], x, t[b]);
      }
    }
    assert AllUrls(t, isUrl);
  }

  /** For an absent `x`, the element at its search index is the least one above `x`. */
  lemma LeastAboveAtLowerBound(s: seq<string>, x: string)
    requires StrictlySorted(s) && x !in s && LowerBound(s, x) < |s|
    ensures var i := LowerBound(s, x);
      && Less(x, s[i])
      && (forall j :: 0 <= j < |s| && Less(x, s[j]) ==> !Less(s[j], s[i]))
  {
    var i := LowerBound(s, x);
    LessTotal(x, s[i]);
    forall j | 0 <= j < |s| && Less(x, s[j]) ensures !Less(s[j], s[i]) {
      if j < i {
        LessAsymmetric(x, s[j]);
      } else if j > i {
        LessAsymmetric(s[i], s[j]);
      } else {
        LessIrreflexive(s[i]);
      }
    }
  }

  /** On a strictly sorted registry, `x` is a member exactly when it sits at its search index. */
  lemma MemberAtLowerBound(s: seq<string>, x: string)
    requires StrictlySorted(s)
    ensures var i := LowerBound(s, x);
      && (x in s <==> i < |s| && s[i] == x)
      && (x !in s ==> forall k :: i <= k < |s| ==> Less(x, s[k]))
  {
    var i := LowerBound(s, x);
    StrictlySortedIff(s);
    LowerBoundPartitions(s, x);
    if x in s {
      var m :| 0 <= m < |s| && s[m] == x;
      LessIrreflexive(x);
    } else {
      forall k | i <= k < |s| ensures Less(x, s[k]) {
        LessTotal(x, s[k]);
      }
    }
  }
}
