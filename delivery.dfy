/**
 * The fan-out step of `publish`: which registered URLs end up in the failure
 * list. Whether `http.Post` to a URL returns an error is an input, the oracle
 * `postFails`.
 */
module Delivery {
  import opened StringOrder

  /**
   * The members of `s` whose delivery errored, in the order of `s`: what the
   * publish loop collects in `failed`, one member appended at a time.
   */
  function Failures(s: seq<string>, postFails: string -> bool): (r: seq<string>)
    ensures |r| <= |s|
    ensures forall u :: u in r <==> u in s && postFails(u)
  {
    if s == [] then []
    else
      var init, last := s[..|s| - 1], s[|s| - 1];
      assert s == init + [last];
      Failures(init, postFails) + (if postFails(last) then [last] else [])
  }

  /** Failures of a concatenation are the failures of each part, in order. */
  lemma {:induction false} FailuresAppend(s: seq<string>, t: seq<string>, postFails: string -> bool)
    ensures Failures(s + t, postFails) == Failures(s, postFails) + Failures(t, postFails)
  {
    if t == [] {
      assert s + t == s;
    } else {
      var init, last := t[..|t| - 1], t[|t| - 1];
      assert (s + t)[..|s + t| - 1] == s + init;
      FailuresAppend(s, init, postFails);
    }
  }

  /** The failure list keeps the registry's ascending order and has no duplicates. */
  lemma {:induction false} FailuresStrictlySorted(s: seq<string>, postFails: string -> bool)
    requires StrictlySorted(s)
    ensures StrictlySorted(Failures(s, postFails))
  {
    if s != [] {
      var init, last := s[..|s| - 1], s[|s| - 1];
      FailuresStrictlySorted(init, postFails);
      var f := Failures(init, postFails);
      forall k | 0 <= k < |f| ensures Less(f[k], last) {
        assert f[k] in init;
      }
    }
  }
}
