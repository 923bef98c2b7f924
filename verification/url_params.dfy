/**
 * getUrlParameter: the value of a named query parameter of `location.search`,
 * found by the pattern `[?&]name=([^&#]*)`, with `+` turned into a space and
 * then percent-decoded.  The seven tracked names contain no pattern
 * metacharacters, so the pattern matches the name literally, as modelled here.
 */
module UrlParams {
  import opened Options
  import opened Text
  import opened Stores

  /** The pattern `[?&]name=` matches at the very start of `s`. */
  predicate MatchesAt(s: string, name: string) {
    |s| > 0 && (s[0] == '?' || s[0] == '&') && StartsWith(s[1..], name + "=")
  }

  /** The capture group `([^&#]*)`: the longest prefix free of `&` and `#`. */
  function TakeValue(s: string): (v: string)
    ensures |v| <= |s| && v == s[..|v|]
    ensures '&' !in v && '#' !in v
    ensures |v| == |s| || s[|v|] == '&' || s[|v|] == '#'
  {
    if |s| == 0 || s[0] == '&' || s[0] == '#' then ""
    else
      var rest := TakeValue(s[1..]);
      assert s[..|rest| + 1] == [s[0]] + s[1..][..|rest|];
      [s[0]] + rest
  }

  /**
   * `regex.exec(search)`: the capture of the match starting leftmost, or None
   * when the pattern matches nowhere.
   */
  function RawParameter(search: string, name: string): (r: Option<string>)
    ensures r.Some? ==> '&' !in r.value && '#' !in r.value
    decreases |search|
  {
    if |search| == 0 then None
    else if MatchesAt(search, name) then Some(TakeValue(search[|name| + 2..]))
    else RawParameter(search[1..], name)
  }

  /** `i` is the leftmost position of `search` where `[?&]name=` matches. */
  predicate LeftmostMatch(search: string, name: string, i: int) {
    && 0 <= i < |search|
    && MatchesAt(search[i..], name)
    && forall j | 0 <= j < i :: !MatchesAt(search[j..], name)
  }

  /**
   * The reader takes its value from the leftmost position where `[?&]name=`
   * matches, and reports no value exactly when it matches nowhere.
   */
  lemma RawParameterIsLeftmostMatch(search: string, name: string)
    ensures RawParameter(search, name).None? <==> forall i | 0 <= i < |search| :: !MatchesAt(search[i..], name)
    ensures RawParameter(search, name).Some? ==>
              exists i :: LeftmostMatch(search, name, i) && RawParameter(search, name).value == TakeValue(search[i + |name| + 2..])
  {
    RawParameterNone(search, name);
    RawParameterSome(search, name);
  }

  /** Dropping the first character shifts every later position by one. */
  lemma NoMatchShift(search: string, name: string)
    requires |search| > 0
    ensures (forall i | 0 < i < |search| :: !MatchesAt(search[i..], name)) <==>
            (forall i | 0 <= i < |search| - 1 :: !MatchesAt(search[1..][i..], name))
  {
    forall i | 0 <= i < |search| - 1 ensures search[1..][i..] == search[i + 1..] {
    }
    if forall i | 0 <= i < |search| - 1 :: !MatchesAt(search[1..][i..], name) {
      forall i | 0 < i < |search| ensures !MatchesAt(search[i..], name) {
        assert search[1..][i - 1..] == search[i..];
      }
    }
  }

  /** The reader finds nothing exactly when the pattern matches nowhere. */
  lemma {:induction false} RawParameterNone(search: string, name: string)
    ensures RawParameter(search, name).None? <==> forall i | 0 <= i < |search| :: !MatchesAt(search[i..], name)
    decreases |search|
  {
    if |search| > 0 {
      assert search[0..] == search;
      if !MatchesAt(search, name) {
        assert RawParameter(search, name) == RawParameter(search[1..], name);
        RawParameterNone(search[1..], name);
        NoMatchShift(search, name);
      }
    }
  }

  /** What the reader finds is the capture at the leftmost match. */
  lemma {:induction false} RawParameterSome(search: string, name: string)
    ensures RawParameter(search, name).Some? ==>
              exists i :: LeftmostMatch(search, name, i) && RawParameter(search, name).value == TakeValue(search[i + |name| + 2..])
    decreases |search|
  {
    if |search| == 0 {
    } else if MatchesAt(search, name) {
      assert search[0..] == search;
      assert LeftmostMatch(search, name, 0);
    } else {
      var r := RawParameter(search[1..], name);
      assert RawParameter(search, name) == r;
      RawParameterSome(search[1..], name);
      if r.Some? {
        var i :| LeftmostMatch(search[1..], name, i) && r.value == TakeValue(search[1..][i + |name| + 2..]);
        LeftmostShift(search, name, i);
      }
    }
  }

  /** Whenever there is a leftmost match, the reader's value is the capture there. */
  lemma RawParameterAtLeftmost(search: string, name: string)
    ensures forall i | LeftmostMatch(search, name, i) :: RawParameter(search, name) == Some(TakeValue(search[i + |name| + 2..]))
  {
    forall i | LeftmostMatch(search, name, i)
      ensures RawParameter(search, name) == Some(TakeValue(search[i + |name| + 2..]))
    {
      RawParameterNone(search, name);
      assert RawParameter(search, name).Some?;
      RawParameterSome(search, name);
      var j :| LeftmostMatch(search, name, j) && RawParameter(search, name).value == TakeValue(search[j + |name| + 2..]);
      LeftmostUnique(search, name, i, j);
    }
  }

  /** There is at most one leftmost match. */
  lemma LeftmostUnique(search: string, name: string, i: int, j: int)
    requires LeftmostMatch(search, name, i) && LeftmostMatch(search, name, j)
    ensures i == j
  {
  }

  /** A leftmost match after a first position that does not match is the leftmost match one further on. */
  lemma LeftmostShift(search: string, name: string, i: int)
    requires |search| > 0 && !MatchesAt(search, name) && LeftmostMatch(search[1..], name, i)
    ensures LeftmostMatch(search, name, i + 1)
    ensures search[1..][i + |name| + 2..] == search[i + 1 + |name| + 2..]
  {
    forall j | 0 <= j < i + 1 ensures !MatchesAt(search[j..], name) {
      if j > 0 {
        assert search[1..][j - 1..] == search[j..];
      } else {
        assert search[0..] == search;
      }
    }
    assert search[1..][i..] == search[i + 1..];
  }

  /** `results[1].replace(/\+/g, ' ')`. */
  function PlusToSpace(s: string): (t: string)
    ensures |t| == |s|
    ensures '+' !in t
    ensures forall i | 0 <= i < |s| && s[i] == '+' :: t[i] == ' '
    ensures forall i | 0 <= i < |s| && s[i] != '+' :: t[i] == s[i]
  {
    if |s| == 0 then ""
    else [if s[0] == '+' then ' ' else s[0]] + PlusToSpace(s[1..])
  }

  /**
   * getUrlParameter(name): `""` when the parameter is missing, else the
   * decoded capture.  `decode` stands for decodeURIComponent.
   */
  function GetUrlParameter(search: string, name: string, decode: string -> string): (r: string)
    ensures (forall i | 0 <= i < |search| :: !MatchesAt(search[i..], name)) ==> r == ""
    ensures forall i | LeftmostMatch(search, name, i) :: r == decode(PlusToSpace(TakeValue(search[i + |name| + 2..])))
  {
    RawParameterNone(search, name);
    RawParameterAtLeftmost(search, name);
    match RawParameter(search, name)
    case None => ""
    case Some(raw) => decode(PlusToSpace(raw))
  }

  /** The `utmParams` object of trackUTMs: one URL value per tracked key. */
  function ReadTracked(search: string, decode: string -> string): (params: Store)
    ensures params.Keys == set k | k in Tracked
    ensures forall k | k in Tracked :: params[k] == GetUrlParameter(search, k, decode)
  {
    map k | k in Tracked :: GetUrlParameter(search, k, decode)
  }

  // A query string written from (name, value) pairs, and reading it back.

  /** A name with no `?`, `&` or `=` in it. */
  predicate PlainName(n: string) {
    '?' !in n && '&' !in n && '=' !in n
  }

  /** A value with no `?`, `&` or `#` in it. */
  predicate PlainValue(v: string) {
    '?' !in v && '&' !in v && '#' !in v
  }

  /** `?n0=v0&n1=v1…` when `lead` is `?`. */
  function Query(pairs: seq<(string, string)>, lead: char): string
  {
    if |pairs| == 0 then ""
    else [lead] + pairs[0].0 + "=" + pairs[0].1 + Query(pairs[1..], '&')
  }

  /** The value of the first pair named `name`. */
  function FirstValue(pairs: seq<(string, string)>, name: string): Option<string>
  {
    if |pairs| == 0 then None
    else if pairs[0].0 == name then Some(pairs[0].1)
    else FirstValue(pairs[1..], name)
  }

  /** No match can start inside a stretch free of `?` and `&`. */
  lemma {:induction false} SkipPlain(x: string, y: string, name: string)
    requires '?' !in x && '&' !in x
    ensures RawParameter(x + y, name) == RawParameter(y, name)
    decreases |x|
  {
    if |x| > 0 {
      assert (x + y)[1..] == x[1..] + y;
      SkipPlain(x[1..], y, name);
    } else {
      assert x + y == y;
    }
  }

  /** The capture stops exactly at the `&` that starts the next pair. */
  lemma {:induction false} TakeWholeValue(v: string, rest: string)
    requires '&' !in v && '#' !in v
    requires rest == [] || rest[0] == '&'
    ensures TakeValue(v + rest) == v
    decreases |v|
  {
    if |v| > 0 {
      assert (v + rest)[1..] == v[1..] + rest;
      TakeWholeValue(v[1..], rest);
      assert v == [v[0]] + v[1..];
    } else {
      assert v + rest == rest;
    }
  }

  /** One `lead name=value` segment followed by the rest of the query. */
  lemma Segment(lead: char, n: string, v: string, rest: string, name: string)
    requires lead == '?' || lead == '&'
    requires PlainName(n) && PlainValue(v) && '=' !in name
    requires rest == [] || rest[0] == '&'
    ensures RawParameter([lead] + n + "=" + v + rest, name) ==
              if n == name then Some(v) else RawParameter(rest, name)
  {
    var s := [lead] + n + "=" + v + rest;
    assert s[1..] == n + "=" + (v + rest);
    KeyPrefix(n, name, v + rest);
    if n == name {
      assert MatchesAt(s, name);
      assert s[|name| + 2..] == v + rest;
      TakeWholeValue(v, rest);
    } else {
      assert !MatchesAt(s, name);
      assert s[1..] == (n + "=" + v) + rest;
      SkipPlain(n + "=" + v, rest, name);
    }
  }

  /**
   * Reading a query string written from plain pairs yields the value of the
   * first pair with that name: the reader inverts the writer.
   */
  lemma {:induction false} QueryRoundTrip(pairs: seq<(string, string)>, lead: char, name: string)
    requires lead == '?' || lead == '&'
    requires forall p | p in pairs :: PlainName(p.0) && PlainValue(p.1)
    requires '=' !in name
    ensures RawParameter(Query(pairs, lead), name) == FirstValue(pairs, name)
    decreases |pairs|
  {
    if |pairs| > 0 {
      var rest := Query(pairs[1..], '&');
      assert pairs[0] in pairs;
      assert rest == [] || rest[0] == '&';
      Segment(lead, pairs[0].0, pairs[0].1, rest, name);
      forall p | p in pairs[1..] ensures PlainName(p.0) && PlainValue(p.1) {
        assert p in pairs;
      }
      QueryRoundTrip(pairs[1..], '&', name);
    }
  }

  /** getUrlParameter on a written query string: the decoded first value, or `""`. */
  lemma GetUrlParameterOfQuery(pairs: seq<(string, string)>, name: string, decode: string -> string)
    requires forall p | p in pairs :: PlainName(p.0) && PlainValue(p.1)
    requires '=' !in name
    ensures FirstValue(pairs, name).None? ==> GetUrlParameter(Query(pairs, '?'), name, decode) == ""
    ensures FirstValue(pairs, name).Some? ==>
              GetUrlParameter(Query(pairs, '?'), name, decode) == decode(PlusToSpace(FirstValue(pairs, name).value))
  {
    QueryRoundTrip(pairs, '?', name);
  }

  /** A tracked parameter of a written query string whose value needs no decoding is read back as written. */
  lemma ReadTrackedOfQuery(pairs: seq<(string, string)>, decode: string -> string, k: string, v: string)
    requires forall p | p in pairs :: PlainName(p.0) && PlainValue(p.1)
    requires k in Tracked && '=' !in k && FirstValue(pairs, k) == Some(v)
    requires '+' !in v && decode(v) == v
    ensures ReadTracked(Query(pairs, '?'), decode)[k] == v
  {
    GetUrlParameterOfQuery(pairs, k, decode);
    assert PlusToSpace(v) == v;
  }
}
