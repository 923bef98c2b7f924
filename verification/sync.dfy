/**
 * The page-load synchronisation of the two stores, pass by pass, as functions
 * from the stores before a pass to the stores after it.  Every pass is one of
 * two moves over the tracked keys: fill the gaps of one store from another
 * (restoreUTMsFromLocalStorageToCookies and the capture loop of trackUTMs),
 * or overlay one store with the set values of another (storeUTMsInLocalStorage
 * and restoreUTMsFromLocalStorage).  The methods of Tracker.Browser are
 * proved to compute exactly these.
 */
module Sync {
  import opened Stores
  import opened Referrer

  /** Filling gaps writes key `k`: it is tracked, unset in `dst` and set in `src`. */
  predicate Fills(dst: Store, src: Store, k: string) {
    k in Tracked && !IsSet(dst, k) && IsSet(src, k)
  }

  /**
   * The tracked keys that are unset in `dst` take their value from `src` when
   * `src` has one; every other entry of `dst` stays.
   */
  function FillGaps(dst: Store, src: Store): (r: Store)
    ensures forall k :: k in r <==> k in dst || Fills(dst, src, k)
    ensures forall k | Fills(dst, src, k) :: r[k] == src[k]
    ensures forall k | k in dst && !Fills(dst, src, k) :: r[k] == dst[k]
  {
    dst + map k | k in Tracked && Fills(dst, src, k) :: src[k]
  }

  /** Every tracked key set in `src` overwrites `dst`; every other entry of `dst` stays. */
  function Overlay(dst: Store, src: Store): (r: Store)
    ensures forall k :: k in r <==> k in dst || (k in Tracked && IsSet(src, k))
    ensures forall k | k in Tracked && IsSet(src, k) :: r[k] == src[k]
    ensures forall k | k in dst && !(k in Tracked && IsSet(src, k)) :: r[k] == dst[k]
  {
    dst + map k | k in Tracked && IsSet(src, k) :: src[k]
  }

  /** FillGaps one key at a time, testing each gap in the store as it stands, as the loops do. */
  function FillGapsOver(dst: Store, src: Store, keys: seq<string>): Store
  {
    if |keys| == 0 then dst
    else
      var r := FillGapsOver(dst, src, keys[..|keys| - 1]);
      var k := keys[|keys| - 1];
      if IsSet(src, k) && !IsSet(r, k) then r[k := src[k]] else r
  }

  /** Overlay one key at a time, as the loops do. */
  function OverlayOver(dst: Store, src: Store, keys: seq<string>): Store
  {
    if |keys| == 0 then dst
    else
      var r := OverlayOver(dst, src, keys[..|keys| - 1]);
      var k := keys[|keys| - 1];
      if IsSet(src, k) then r[k := src[k]] else r
  }

  /** Over distinct keys, filling one key at a time fills exactly the gaps `dst` had at the start. */
  lemma {:induction false} FillGapsOverKeys(dst: Store, src: Store, keys: seq<string>)
    requires Distinct(keys)
    ensures var r := FillGapsOver(dst, src, keys);
            (forall k :: k in r <==> k in dst || (k in keys && !IsSet(dst, k) && IsSet(src, k))) &&
            (forall k | k in keys && !IsSet(dst, k) && IsSet(src, k) :: r[k] == src[k]) &&
            (forall k | k in dst && !(k in keys && !IsSet(dst, k) && IsSet(src, k)) :: r[k] == dst[k])
  {
    if |keys| > 0 {
      var prefix := keys[..|keys| - 1];
      var last := keys[|keys| - 1];
      DistinctLast(keys);
      FillGapsOverKeys(dst, src, prefix);
      assert forall k :: k in keys <==> k in prefix || k == last;
    }
  }

  /** Overlaying one key at a time overlays every key. */
  lemma {:induction false} OverlayOverKeys(dst: Store, src: Store, keys: seq<string>)
    ensures OverlayOver(dst, src, keys) == dst + map k | k in keys && IsSet(src, k) :: src[k]
  {
    if |keys| > 0 {
      var prefix := keys[..|keys| - 1];
      var last := keys[|keys| - 1];
      OverlayOverKeys(dst, src, prefix);
      assert forall k :: k in keys <==> k in prefix || k == last;
    }
  }

  /** The key-by-key fill over the tracked keys is FillGaps. */
  lemma FillGapsOverTracked(dst: Store, src: Store)
    ensures FillGapsOver(dst, src, Tracked) == FillGaps(dst, src)
  {
    TrackedDistinct();
    FillGapsOverKeys(dst, src, Tracked);
    var r := FillGapsOver(dst, src, Tracked);
    assert r.Keys == FillGaps(dst, src).Keys;
  }

  /** The key-by-key overlay over the tracked keys is Overlay. */
  lemma OverlayOverTracked(dst: Store, src: Store)
    ensures OverlayOver(dst, src, Tracked) == Overlay(dst, src)
  {
    OverlayOverKeys(dst, src, Tracked);
  }

  /**
   * trackUTMs falls back to the referrer when the URL has no source, medium or
   * campaign and, after capture, there is no `utm_source` cookie.
   */
  predicate NeedsFallback(params: Store, cookies: Store) {
    !IsSet(params, Source) && !IsSet(params, Medium) && !IsSet(params, Campaign) && !IsSet(cookies, Source)
  }

  /** setReferrerDefaults' three cookie writes. */
  function WriteAttribution(cookies: Store, a: Attribution): (r: Store)
    ensures r.Keys == cookies.Keys + {Source, Medium, Campaign}
    ensures r[Source] == a.source && r[Medium] == a.medium && r[Campaign] == a.campaign
    ensures forall k | k in cookies && k !in {Source, Medium, Campaign} :: r[k] == cookies[k]
  {
    cookies[Source := a.source][Medium := a.medium][Campaign := a.campaign]
  }

  /** The referrer fallback of trackUTMs. */
  function Fallback(cookies: Store, params: Store, referrer: string, currentUrl: string): (r: Store)
    ensures NeedsFallback(params, cookies) ==> r == WriteAttribution(cookies, Classify(referrer, currentUrl))
    ensures !NeedsFallback(params, cookies) ==> r == cookies
  {
    if NeedsFallback(params, cookies) then WriteAttribution(cookies, Classify(referrer, currentUrl)) else cookies
  }

  /**
   * storeUTMsInLocalStorage: only when localStorage holds none of the tracked
   * keys is every set cookie copied into it; every other entry is kept.
   */
  function Mirror(cookies: Store, storage: Store): (r: Store)
    ensures !NoneSet(storage) ==> r == storage
    ensures NoneSet(storage) ==> forall k | k in Tracked :: IsSet(r, k) == IsSet(cookies, k)
    ensures NoneSet(storage) ==> forall k | k in Tracked && IsSet(cookies, k) :: k in r && r[k] == cookies[k]
    ensures forall k :: k in r <==> k in storage || (NoneSet(storage) && k in Tracked && IsSet(cookies, k))
    ensures forall k | k in storage && !(NoneSet(storage) && k in Tracked && IsSet(cookies, k)) :: r[k] == storage[k]
  {
    if NoneSet(storage) then Overlay(storage, cookies) else storage
  }

  datatype BrowserState = BrowserState(cookies: Store, storage: Store)

  /** trackUTMs: capture URL values into unset cookies, referrer fallback, then the mirror into localStorage. */
  function Track(st: BrowserState, params: Store, referrer: string, currentUrl: string): BrowserState
  {
    var captured := FillGaps(st.cookies, params);
    var cookies := Fallback(captured, params, referrer, currentUrl);
    BrowserState(cookies, Mirror(cookies, st.storage))
  }

  /**
   * The DOMContentLoaded handler: restoreUTMsFromLocalStorageToCookies,
   * trackUTMs, then restoreUTMsFromLocalStorage.
   */
  function PageLoad(st: BrowserState, params: Store, referrer: string, currentUrl: string): BrowserState
  {
    var repaired := BrowserState(FillGaps(st.cookies, st.storage), st.storage);
    var tracked := Track(repaired, params, referrer, currentUrl);
    BrowserState(Overlay(tracked.cookies, tracked.storage), tracked.storage)
  }

  // Properties of single passes.

  /** Filling gaps twice from the same store is filling them once. */
  lemma FillGapsIdempotent(dst: Store, src: Store)
    ensures FillGaps(FillGaps(dst, src), src) == FillGaps(dst, src)
  {
    var r := FillGaps(dst, src);
    assert forall k :: !Fills(r, src, k);
  }

  /** Overlaying twice with the same store is overlaying once. */
  lemma OverlayIdempotent(dst: Store, src: Store)
    ensures Overlay(Overlay(dst, src), src) == Overlay(dst, src)
  {
  }

  /** A second mirror changes nothing: the first either found data or wrote all it could. */
  lemma MirrorIdempotent(cookies: Store, storage: Store)
    ensures Mirror(cookies, Mirror(cookies, storage)) == Mirror(cookies, storage)
  {
    var m := Mirror(cookies, storage);
    if NoneSet(storage) && NoneSet(m) {
      assert forall k | k in Tracked :: !IsSet(cookies, k);
      assert m == storage;
    }
  }

  /** After the unconditional restore, the early repair from the same store has nothing to do. */
  lemma FillGapsAfterOverlay(dst: Store, src: Store)
    ensures FillGaps(Overlay(dst, src), src) == Overlay(dst, src)
  {
    var r := Overlay(dst, src);
    assert forall k :: !Fills(r, src, k);
  }

  /**
   * Restoring directly after a repair from the same store gives what the
   * restore alone gives.  (In the page load trackUTMs runs between the two, and
   * there the repair does matter: see RepairChangesPageLoad.)
   */
  lemma OverlaySubsumesFillGaps(dst: Store, src: Store)
    ensures Overlay(FillGaps(dst, src), src) == Overlay(dst, src)
  {
  }

  /** When the fallback runs it overwrites medium and campaign, even cookies that were set. */
  lemma FallbackOverwrites(cookies: Store, params: Store, referrer: string, currentUrl: string)
    requires NeedsFallback(params, cookies)
    ensures Fallback(cookies, params, referrer, currentUrl)[Medium] == Classify(referrer, currentUrl).medium
    ensures Fallback(cookies, params, referrer, currentUrl)[Campaign] == NotProvided
    ensures Fallback(cookies, params, referrer, currentUrl)[Source] == Classify(referrer, currentUrl).source
  {
  }

  /**
   * The fallback never unsets a cookie: it writes `utm_source` only when that
   * is unset, and medium and campaign are never empty.  With a page href it
   * also settles its own guard.
   */
  lemma FallbackKeepsSet(cookies: Store, params: Store, referrer: string, currentUrl: string)
    ensures var r := Fallback(cookies, params, referrer, currentUrl);
            forall j | IsSet(cookies, j) :: IsSet(r, j)
    ensures currentUrl != "" ==> !NeedsFallback(params, Fallback(cookies, params, referrer, currentUrl))
  {
  }

  /** After filling gaps every tracked value of the source is set in the result, and set entries stay set. */
  lemma FillGapsCovers(dst: Store, src: Store)
    ensures forall j | j in Tracked && IsSet(src, j) :: IsSet(FillGaps(dst, src), j)
    ensures forall j | IsSet(dst, j) :: IsSet(FillGaps(dst, src), j)
  {
  }

  /** An overlay writes only non-empty values. */
  lemma OverlayKeepsSet(dst: Store, src: Store)
    ensures forall j | IsSet(dst, j) :: IsSet(Overlay(dst, src), j)
  {
  }

  /** Filling gaps does nothing once every tracked value of the source is already set. */
  lemma FillGapsSettled(dst: Store, src: Store)
    requires forall j | j in Tracked && IsSet(src, j) :: IsSet(dst, j)
    ensures FillGaps(dst, src) == dst
  {
    assert forall j :: !Fills(dst, src, j);
  }

  /** The mirror has nothing to do after the restore that follows it. */
  lemma MirrorSettled(cookies: Store, storage: Store)
    ensures var m := Mirror(cookies, storage);
            Mirror(Overlay(cookies, m), m) == m
  {
    var m := Mirror(cookies, storage);
    if NoneSet(m) {
      assert forall j | j in Tracked :: !IsSet(cookies, j);
      assert forall j | j in Tracked :: !IsSet(Overlay(cookies, m), j);
    }
  }

  // Properties of the whole page load.

  /**
   * After a page load every tracked key that localStorage holds has the same
   * cookie, and localStorage is written only on a visit that found it empty.
   */
  lemma PageLoadSynced(st: BrowserState, params: Store, referrer: string, currentUrl: string)
    ensures var f := PageLoad(st, params, referrer, currentUrl);
            forall k | k in Tracked && IsSet(f.storage, k) :: f.cookies[k] == f.storage[k]
    ensures !NoneSet(st.storage) ==> PageLoad(st, params, referrer, currentUrl).storage == st.storage
  {
  }

  /**
   * First touch wins: a cookie that is set, and that localStorage does not
   * contradict (it lacks the key or holds the same value), survives the page
   * load whatever the URL carries.  Medium and campaign survive too whenever
   * the referrer fallback's guard is off: when the URL carries a source,
   * medium or campaign, or `utm_source` is set as a cookie or in localStorage
   * (the repair then writes that cookie before the guard is tested).
   */
  lemma PageLoadKeepsFirstTouch(st: BrowserState, params: Store, referrer: string, currentUrl: string, k: string)
    requires k in Tracked
    requires || (k != Medium && k != Campaign)
             || IsSet(params, Source) || IsSet(params, Medium) || IsSet(params, Campaign)
             || IsSet(st.cookies, Source) || IsSet(st.storage, Source)
    requires IsSet(st.cookies, k) && (!IsSet(st.storage, k) || st.storage[k] == st.cookies[k])
    ensures PageLoad(st, params, referrer, currentUrl).cookies[k] == st.cookies[k]
  {
    var repaired := FillGaps(st.cookies, st.storage);
    assert repaired[k] == st.cookies[k];
    var captured := FillGaps(repaired, params);
    assert captured[k] == st.cookies[k];
    var cookies := Fallback(captured, params, referrer, currentUrl);
    assert k in cookies && cookies[k] == st.cookies[k] by {
      if k == Source {
        assert !NeedsFallback(params, captured);
      } else if k == Medium || k == Campaign {
        assert IsSet(st.cookies, Source) || IsSet(st.storage, Source) ==> IsSet(captured, Source);
        assert !NeedsFallback(params, captured);
      }
    }
    var m := Mirror(cookies, st.storage);
    assert !IsSet(m, k) || m[k] == cookies[k];
    assert PageLoad(st, params, referrer, currentUrl).cookies == Overlay(cookies, m);
  }

  /**
   * A URL value for a key that neither store holds reaches the cookie, and
   * reaches localStorage too when localStorage held no tracked key.
   */
  lemma PageLoadCaptures(st: BrowserState, params: Store, referrer: string, currentUrl: string, k: string)
    requires k in Tracked && IsSet(params, k)
    requires !IsSet(st.cookies, k) && !IsSet(st.storage, k)
    ensures PageLoad(st, params, referrer, currentUrl).cookies[k] == params[k]
    ensures NoneSet(st.storage) ==> PageLoad(st, params, referrer, currentUrl).storage[k] == params[k]
  {
    var repaired := FillGaps(st.cookies, st.storage);
    assert !Fills(st.cookies, st.storage, k);
    var captured := FillGaps(repaired, params);
    assert Fills(repaired, params, k);
    var cookies := Fallback(captured, params, referrer, currentUrl);
    if k in {Source, Medium, Campaign} {
      assert !NeedsFallback(params, captured);
    }
    assert cookies[k] == params[k];
  }

  /**
   * Reloading the page with the same URL and referrer changes neither store:
   * the page load is idempotent.
   */
  lemma PageLoadStable(st: BrowserState, params: Store, referrer: string, currentUrl: string)
    ensures var f := PageLoad(st, params, referrer, currentUrl);
            PageLoad(f, params, referrer, currentUrl) == f
  {
    var repaired := FillGaps(st.cookies, st.storage);
    var captured := FillGaps(repaired, params);
    var cookies := Fallback(captured, params, referrer, currentUrl);
    var storage := Mirror(cookies, st.storage);
    var restored := Overlay(cookies, storage);
    assert PageLoad(st, params, referrer, currentUrl) == BrowserState(restored, storage);
    FillGapsCovers(repaired, params);
    FallbackKeepsSet(captured, params, referrer, currentUrl);
    OverlayKeepsSet(cookies, storage);
    // Second pass: each step leaves the stores as they are.
    FillGapsAfterOverlay(cookies, storage);
    assert FillGaps(restored, storage) == restored;
    FillGapsSettled(restored, params);
    assert FillGaps(restored, params) == restored;
    if NeedsFallback(params, restored) {
      // Only a first pass that ran the fallback leaves `utm_source` unset (an empty href).
      assert NeedsFallback(params, captured);
      RefallbackStable(captured, st.storage, Classify(referrer, currentUrl));
    } else {
      assert Fallback(restored, params, referrer, currentUrl) == restored;
      MirrorSettled(cookies, st.storage);
      OverlayIdempotent(cookies, storage);
    }
  }

  /**
   * A reload that runs the fallback again writes the same three values, which
   * the mirror of the first load has already settled.
   */
  lemma RefallbackStable(captured: Store, storage0: Store, a: Attribution)
    requires a.medium in {Direct, OrganicSearch, OrganicSocial, Referral} && a.campaign == NotProvided
    ensures var cookies := WriteAttribution(captured, a);
            var storage := Mirror(cookies, storage0);
            var restored := Overlay(cookies, storage);
            Mirror(WriteAttribution(restored, a), storage) == storage &&
            Overlay(WriteAttribution(restored, a), storage) == restored
  {
    var cookies := WriteAttribution(captured, a);
    var storage := Mirror(cookies, storage0);
    assert !NoneSet(storage) by {
      if NoneSet(storage0) {
        assert IsSet(storage, Medium);
      }
    }
    RewriteUnderOverlay(cookies, storage, a);
  }

  /** Writing back the attribution values the cookies already hold changes nothing once the same overlay follows. */
  lemma RewriteUnderOverlay(cookies: Store, storage: Store, a: Attribution)
    requires Source in cookies && Medium in cookies && Campaign in cookies
    requires cookies[Source] == a.source && cookies[Medium] == a.medium && cookies[Campaign] == a.campaign
    ensures Overlay(WriteAttribution(Overlay(cookies, storage), a), storage) == Overlay(cookies, storage)
  {
    var restored := Overlay(cookies, storage);
    var again := WriteAttribution(restored, a);
    var r := Overlay(again, storage);
    assert r.Keys == restored.Keys;
    forall k | k in restored ensures r[k] == restored[k] {
      if !(k in Tracked && IsSet(storage, k)) && k in {Source, Medium, Campaign} {
        assert again[k] == cookies[k];
      }
    }
  }

  /**
   * The early repair matters to the page load: trackUTMs sees the cookie it
   * restores.  With `utm_source` only in localStorage and no URL parameters,
   * the repaired cookie turns the referrer fallback off, while without the
   * repair the fallback would write a medium.
   */
  lemma RepairChangesPageLoad()
    ensures var st := BrowserState(map[], map[Source := "x"]);
            var params: Store := map[];
            var url := "https://example.org/";
            var tracked := Track(st, params, "", url);
            !IsSet(PageLoad(st, params, "", url).cookies, Medium) &&
            Overlay(tracked.cookies, tracked.storage)[Medium] == Direct
  {
    var st := BrowserState(map[], map[Source := "x"]);
    var params: Store := map[];
    var url := "https://example.org/";
    assert !NoneSet(st.storage) by {
      assert IsSet(st.storage, Tracked[0]);
    }
    var repaired := FillGaps(st.cookies, st.storage);
    assert IsSet(repaired, Source);
    var withRepair := FillGaps(repaired, params);
    assert Fallback(withRepair, params, "", url) == withRepair;
    assert !IsSet(withRepair, Medium);
    var without := FillGaps(st.cookies, params);
    assert NeedsFallback(params, without);
    assert Fallback(without, params, "", url)[Medium] == Direct;
  }
}
