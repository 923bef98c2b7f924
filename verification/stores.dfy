/**
 * The two client-side stores the tracker keeps in step: the cookie jar
 * (`document.cookie`) and `localStorage`, each a key-to-string map.
 */
module Stores {

  type Store = map<string, string>

  const Source := "utm_source"
  const Medium := "utm_medium"
  const Campaign := "utm_campaign"

  /** The seven tracked attribution keys, in the order every pass visits them. */
  const Tracked: seq<string> := [Source, Medium, Campaign, "utm_content", "utm_term", "gclid", "fbclid"]

  /** Every cookie the tracker writes carries this lifetime (setCookie's `minutes`). */
  const CookieTtlMinutes := 480

  /**
   * A key counts as set when it is present with a non-empty value: the source
   * tests `getCookie(k)` and `localStorage.getItem(k)` for truthiness, and
   * both `null` and `""` are falsy.
   */
  predicate IsSet(m: Store, k: string) {
    k in m && m[k] != ""
  }

  /** `localStorage.getItem(k) || ''`. */
  function Get(m: Store, k: string): (v: string)
    ensures v != "" <==> IsSet(m, k)
    ensures IsSet(m, k) ==> v == m[k]
  {
    if k in m then m[k] else ""
  }

  /** No tracked key is set: `utmParams.every(param => !localStorage.getItem(param))`. */
  predicate NoneSet(m: Store) {
    forall k | k in Tracked :: !IsSet(m, k)
  }

  /** No key occurs twice. */
  predicate Distinct(keys: seq<string>) {
    forall i, j | 0 <= i < j < |keys| :: keys[i] != keys[j]
  }

  /** Dropping the last key keeps the keys distinct, and the last key is not among the others. */
  lemma DistinctLast(keys: seq<string>)
    requires |keys| > 0 && Distinct(keys)
    ensures Distinct(keys[..|keys| - 1]) && keys[|keys| - 1] !in keys[..|keys| - 1]
  {
    var prefix := keys[..|keys| - 1];
    forall i | 0 <= i < |prefix|
      ensures prefix[i] != keys[|keys| - 1]
    {
      assert prefix[i] == keys[i];
    }
  }

  /** The tracked keys are pairwise distinct, so each pass visits a key once. */
  lemma TrackedDistinct()
    ensures Distinct(Tracked)
  {
  }
}
