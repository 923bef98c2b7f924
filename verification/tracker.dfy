/**
 * The tracker as it runs in the page: one object holding the cookie jar,
 * localStorage and the page's forms, with a method for each function of the
 * script that changes state.  The read-only helpers are functions elsewhere:
 * `getUrlParameter` in UrlParams, `getCookie` in CookieHeader and
 * `isLinkedInReferrer` inside Referrer.Classify.
 *
 * Each method updates its state in place, step by step as the script does,
 * and is proved to leave exactly the state the passes of Sync and Forms
 * describe; SetCookie is a single map write, and PopulateOne is the per-form
 * callback, which returns the populated form for PopulateFormFields to store.
 * A cookie read (`getCookie`) is a lookup in the jar map; the parsing of the
 * `document.cookie` header behind it is CookieHeader.
 */
module Tracker {
  import opened Options
  import opened Stores
  import opened Referrer
  import opened UrlParams
  import opened Sync
  import opened Forms

  class Browser {
    /** `document.cookie`, as the jar of live cookies. */
    var cookies: Store
    /** `window.localStorage`. */
    var storage: Store
    /** The page's `<form>` elements, each as its inputs in document order. */
    var forms: seq<Form>

    constructor (cookies0: Store, storage0: Store, forms0: seq<Form>)
      ensures cookies == cookies0 && storage == storage0 && forms == forms0
    {
      cookies := cookies0;
      storage := storage0;
      forms := forms0;
    }

    /** setCookie: the jar maps `name` to `value`; the lifetime is not modelled. */
    method SetCookie(name: string, value: string, minutes: int)
      modifies this`cookies
      ensures cookies == old(cookies)[name := value]
    {
      cookies := cookies[name := value];
    }

    /** setReferrerDefaults: classify the referrer and write the three attribution cookies. */
    method SetReferrerDefaults(referrer: string, currentUrl: string)
      modifies this`cookies
      ensures cookies == WriteAttribution(old(cookies), Classify(referrer, currentUrl))
    {
      var a := Classify(referrer, currentUrl);
      SetCookie(Source, a.source, CookieTtlMinutes);
      SetCookie(Medium, a.medium, CookieTtlMinutes);
      SetCookie(Campaign, a.campaign, CookieTtlMinutes);
    }

    /** storeUTMsInLocalStorage: copy the set cookies only when localStorage holds no tracked key. */
    method StoreUTMsInLocalStorage()
      modifies this`storage
      ensures storage == Mirror(cookies, old(storage))
    {
      var isEmpty := true;
      var i := 0;
      while i < |Tracked| && isEmpty
        invariant 0 <= i <= |Tracked|
        invariant isEmpty <==> forall j | 0 <= j < i :: !IsSet(storage, Tracked[j])
      {
        isEmpty := !IsSet(storage, Tracked[i]);
        i := i + 1;
      }
      assert isEmpty <==> NoneSet(storage);
      if isEmpty {
        for i := 0 to |Tracked|
          invariant storage == OverlayOver(old(storage), cookies, Tracked[..i])
        {
          var value := Get(cookies, Tracked[i]);
          if value != "" {
            storage := storage[Tracked[i] := value];
          }
          assert Tracked[..i + 1][..i] == Tracked[..i];
        }
        assert Tracked[..|Tracked|] == Tracked;
        OverlayOverTracked(old(storage), cookies);
      }
    }

    /** trackUTMs: capture the URL values into unset cookies, fall back to the referrer, mirror. */
    method TrackUTMs(search: string, href: string, referrer: string, decode: string -> string)
      modifies this`cookies, this`storage
      ensures var params := ReadTracked(search, decode);
              cookies == Fallback(FillGaps(old(cookies), params), params, referrer, href)
      ensures storage == Mirror(cookies, old(storage))
    {
      var params := ReadTracked(search, decode);
      for i := 0 to |Tracked|
        invariant cookies == FillGapsOver(old(cookies), params, Tracked[..i])
        invariant storage == old(storage)
      {
        var key := Tracked[i];
        if IsSet(params, key) && !IsSet(cookies, key) {
          SetCookie(key, params[key], CookieTtlMinutes);
        }
        assert Tracked[..i + 1][..i] == Tracked[..i];
      }
      assert Tracked[..|Tracked|] == Tracked;
      FillGapsOverTracked(old(cookies), params);
      ghost var captured := cookies;
      assert captured == FillGaps(old(cookies), params);
      if NeedsFallback(params, cookies) {
        SetReferrerDefaults(referrer, href);
      }
      assert cookies == Fallback(captured, params, referrer, href);
      StoreUTMsInLocalStorage();
    }

    /** populateFormFields: run the per-form callback over every form of the page. */
    method PopulateFormFields()
      modifies this`forms
      ensures forms == PopulateAll(old(forms), storage)
    {
      for f := 0 to |forms|
        invariant |forms| == |old(forms)|
        invariant forall k | 0 <= k < f :: forms[k] == PopulateForm(old(forms)[k], storage)
        invariant forall k | f <= k < |forms| :: forms[k] == old(forms)[k]
      {
        var form := PopulateOne(forms[f]);
        forms := forms[f := form];
      }
    }

    /**
     * The callback populateFormFields runs on one form: for each mapped field,
     * the first input with its name takes the stored value, or a hidden input
     * carrying it is appended.
     */
    method PopulateOne(form0: Form) returns (form: Form)
      ensures form == PopulateForm(form0, storage)
    {
      form := form0;
      for j := 0 to |Fields|
        invariant form == ApplyFields(form0, Fields[..j], storage)
      {
        var value := Get(storage, Fields[j].key);
        var name := Fields[j].name;
        ghost var before := form;
        match FirstNamed(form, name) {
          case Some(idx) =>
            form := form[idx := form[idx].(value := value)];
          case None =>
            form := form + [Input(name, value, true)];
        }
        assert form == SetField(before, name, value) by {
          SetFieldCases(before, name, value);
        }
        ApplyFieldsStep(form0, Fields, j, storage);
      }
      assert Fields[..|Fields|] == Fields;
    }

    /** restoreUTMsFromLocalStorageToCookies: fill unset cookies from localStorage. */
    method RestoreUTMsFromLocalStorageToCookies()
      modifies this`cookies
      ensures cookies == FillGaps(old(cookies), storage)
    {
      for i := 0 to |Tracked|
        invariant cookies == FillGapsOver(old(cookies), storage, Tracked[..i])
      {
        var key := Tracked[i];
        if !IsSet(cookies, key) {
          var value := Get(storage, key);
          if value != "" {
            SetCookie(key, value, CookieTtlMinutes);
          }
        }
        assert Tracked[..i + 1][..i] == Tracked[..i];
      }
      assert Tracked[..|Tracked|] == Tracked;
      FillGapsOverTracked(old(cookies), storage);
    }

    /** restoreUTMsFromLocalStorage: every stored value overwrites its cookie. */
    method RestoreUTMsFromLocalStorage()
      modifies this`cookies
      ensures cookies == Overlay(old(cookies), storage)
    {
      for i := 0 to |Tracked|
        invariant cookies == OverlayOver(old(cookies), storage, Tracked[..i])
      {
        var value := Get(storage, Tracked[i]);
        if value != "" {
          SetCookie(Tracked[i], value, CookieTtlMinutes);
        }
        assert Tracked[..i + 1][..i] == Tracked[..i];
      }
      assert Tracked[..|Tracked|] == Tracked;
      OverlayOverTracked(old(cookies), storage);
    }

    /**
     * The DOMContentLoaded handler, without the form population it schedules
     * two seconds later (PopulateFormFields, run by the caller afterwards).
     */
    method OnDomContentLoaded(search: string, href: string, referrer: string, decode: string -> string)
      modifies this`cookies, this`storage
      ensures BrowserState(cookies, storage) ==
              PageLoad(BrowserState(old(cookies), old(storage)), ReadTracked(search, decode), referrer, href)
    {
      RestoreUTMsFromLocalStorageToCookies();
      TrackUTMs(search, href, referrer, decode);
      RestoreUTMsFromLocalStorage();
    }
  }

  /**
   * Every tracked key is made of lower-case letters and `_` only: it holds no
   * `=`, so `name=` cannot end inside it, and no regular-expression
   * metacharacter, so the pattern built from it matches it literally.
   */
  lemma TrackedNamesPlain()
    ensures forall k | k in Tracked :: '=' !in k
    ensures forall k, c | k in Tracked && c in k :: ('a' <= c <= 'z') || c == '_'
  {
  }

  /**
   * A visitor arriving from a campaign link on a first visit: a tracked
   * parameter whose value needs no decoding ends up in both the cookie and
   * localStorage once the page has loaded.
   */
  lemma CampaignLinkReachesBothStores(st: BrowserState, pairs: seq<(string, string)>, decode: string -> string,
                                      referrer: string, href: string, k: string, v: string)
    requires forall p | p in pairs :: PlainName(p.0) && PlainValue(p.1)
    requires k in Tracked && FirstValue(pairs, k) == Some(v)
    requires v != "" && '+' !in v && decode(v) == v
    requires !IsSet(st.cookies, k) && NoneSet(st.storage)
    ensures var f := PageLoad(st, ReadTracked(Query(pairs, '?'), decode), referrer, href);
            k in f.cookies && f.cookies[k] == v && k in f.storage && f.storage[k] == v
  {
    TrackedNamesPlain();
    ReadTrackedOfQuery(pairs, decode, k, v);
    var params := ReadTracked(Query(pairs, '?'), decode);
    PageLoadCaptures(st, params, referrer, href, k);
  }
}
