/**
 * getCookie: reading one cookie out of the `document.cookie` header string,
 * `name1=value1; name2=value2; …`.
 */
module CookieHeader {
  import opened Options
  import opened Text
  import opened Stores

  /** What one `;`-separated segment says about cookie `name`. */
  function SegmentValue(segment: string, name: string): Option<string>
  {
    var c := TrimLeadingSpaces(segment);
    var nameEq := name + "=";
    if StartsWith(c, nameEq) then Some(c[|nameEq|..]) else None
  }

  /** A segment's value is what follows `name=` after the leading spaces, so a suffix of the segment. */
  lemma SegmentValueIsSuffix(segment: string, name: string)
    ensures SegmentValue(segment, name).Some? ==>
              && TrimLeadingSpaces(segment) == name + "=" + SegmentValue(segment, name).value
              && SegmentValue(segment, name).value == segment[|segment| - |SegmentValue(segment, name).value|..]
  {
    var c := TrimLeadingSpaces(segment);
    var nameEq := name + "=";
    TrimLeadingSpacesSuffix(segment);
    if StartsWith(c, nameEq) {
      var value := c[|nameEq|..];
      assert SegmentValue(segment, name) == Some(value);
      assert c == nameEq + value by {
        assert c == c[..|nameEq|] + value;
      }
      var start := |segment| - |c|;
      assert c == segment[start..];
      assert value == segment[start + |nameEq|..];
    }
  }

  /** The value in the first segment that names the cookie. */
  function FirstSegmentValue(segments: seq<string>, name: string): Option<string>
  {
    if |segments| == 0 then None
    else if SegmentValue(segments[0], name).Some? then SegmentValue(segments[0], name)
    else FirstSegmentValue(segments[1..], name)
  }

  /** Segment `i` is the first one that names the cookie. */
  predicate FirstNaming(segments: seq<string>, name: string, i: int) {
    && 0 <= i < |segments|
    && SegmentValue(segments[i], name).Some?
    && forall j | 0 <= j < i :: SegmentValue(segments[j], name).None?
  }

  /** When the first segment does not name the cookie, no segment does exactly when no later one does. */
  lemma NoneShift(segments: seq<string>, name: string)
    requires |segments| > 0 && SegmentValue(segments[0], name).None?
    ensures (forall i | 0 <= i < |segments| :: SegmentValue(segments[i], name).None?) <==>
            (forall i | 0 <= i < |segments| - 1 :: SegmentValue(segments[1..][i], name).None?)
  {
    var tail := segments[1..];
    if forall i | 0 <= i < |tail| :: SegmentValue(tail[i], name).None? {
      forall i | 0 <= i < |segments| ensures SegmentValue(segments[i], name).None? {
        if i > 0 {
          assert segments[i] == tail[i - 1];
        }
      }
    } else {
      var i :| 0 <= i < |tail| && SegmentValue(tail[i], name).Some?;
      assert segments[i + 1] == tail[i];
    }
  }

  /** The search finds nothing exactly when no segment names the cookie. */
  lemma {:induction false} FirstSegmentValueNone(segments: seq<string>, name: string)
    ensures FirstSegmentValue(segments, name).None? <==>
              forall i | 0 <= i < |segments| :: SegmentValue(segments[i], name).None?
  {
    if |segments| > 0 && SegmentValue(segments[0], name).None? {
      assert FirstSegmentValue(segments, name) == FirstSegmentValue(segments[1..], name);
      FirstSegmentValueNone(segments[1..], name);
      NoneShift(segments, name);
    }
  }

  /** What the search finds comes from the first segment that names the cookie. */
  lemma {:induction false} FirstSegmentValueSome(segments: seq<string>, name: string)
    ensures FirstSegmentValue(segments, name).Some? ==>
              exists i :: FirstNaming(segments, name, i) && FirstSegmentValue(segments, name) == SegmentValue(segments[i], name)
  {
    if |segments| > 0 {
      if SegmentValue(segments[0], name).Some? {
        assert FirstNaming(segments, name, 0);
      } else if FirstSegmentValue(segments, name).Some? {
        var tail := segments[1..];
        FirstSegmentValueSome(tail, name);
        assert FirstSegmentValue(segments, name) == FirstSegmentValue(tail, name);
        var i :| FirstNaming(tail, name, i) && FirstSegmentValue(tail, name) == SegmentValue(tail[i], name);
        assert forall j | 0 < j <= i + 1 :: segments[j] == tail[j - 1];
        assert FirstNaming(segments, name, i + 1);
      }
    }
  }

  /** getCookie returns at the first segment that names the cookie, and null when none does. */
  lemma FirstSegmentValueIsFirstMatch(segments: seq<string>, name: string)
    ensures FirstSegmentValue(segments, name).None? <==>
              forall i | 0 <= i < |segments| :: SegmentValue(segments[i], name).None?
    ensures FirstSegmentValue(segments, name).Some? ==>
              exists i :: FirstNaming(segments, name, i) && FirstSegmentValue(segments, name) == SegmentValue(segments[i], name)
  {
    FirstSegmentValueNone(segments, name);
    FirstSegmentValueSome(segments, name);
  }

  /**
   * getCookie(name) on the header: the remainder after `name=` of the first
   * segment that starts with `name=` once its leading spaces are removed.
   */
  function CookieLookup(header: string, name: string): (r: Option<string>)
    ensures r.Some? ==> ';' !in r.value
  {
    FirstValueLacks(Split(header, ';'), name, ';');
    FirstSegmentValue(Split(header, ';'), name)
  }

  /** A character absent from every segment is absent from the value found. */
  lemma {:induction false} FirstValueLacks(segments: seq<string>, name: string, c: char)
    requires forall p | p in segments :: c !in p
    ensures FirstSegmentValue(segments, name).Some? ==> c !in FirstSegmentValue(segments, name).value
  {
    if |segments| > 0 {
      var seg := segments[0];
      if SegmentValue(seg, name).Some? {
        SegmentValueIsSuffix(seg, name);
        var v := SegmentValue(seg, name).value;
        assert seg in segments;
        assert forall k | 0 <= k < |v| :: v[k] == seg[|seg| - |v| + k];
      } else {
        forall p | p in segments[1..] ensures c !in p {
          assert p in segments;
        }
        FirstValueLacks(segments[1..], name, c);
      }
    }
  }

  /** One step of the search: the segment at `i`, else the segments after it. */
  lemma FirstSegmentValueStep(segments: seq<string>, i: nat, name: string)
    requires i < |segments|
    ensures FirstSegmentValue(segments[i..], name) ==
              if SegmentValue(segments[i], name).Some? then SegmentValue(segments[i], name)
              else FirstSegmentValue(segments[i + 1..], name)
  {
    assert segments[i..][0] == segments[i] && segments[i..][1..] == segments[i + 1..];
  }

  /** The getCookie loop, proved to compute CookieLookup. */
  method GetCookie(header: string, name: string) returns (r: Option<string>)
    ensures r == CookieLookup(header, name)
  {
    var nameEq := name + "=";
    var ca := Split(header, ';');
    var i := 0;
    while i < |ca|
      invariant 0 <= i <= |ca|
      invariant FirstSegmentValue(ca, name) == FirstSegmentValue(ca[i..], name)
    {
      var c := ca[i];
      while |c| > 0 && c[0] == ' '
        invariant TrimLeadingSpaces(c) == TrimLeadingSpaces(ca[i])
      {
        c := c[1..];
      }
      assert c == TrimLeadingSpaces(ca[i]);
      FirstSegmentValueStep(ca, i, name);
      if StartsWith(c, nameEq) {
        return Some(c[|nameEq|..]);
      }
      i := i + 1;
    }
    return None;
  }

  // The header the browser reports for a jar, and reading it back.

  /** A cookie name the header reports back unchanged. */
  predicate WellFormedName(n: string) {
    ';' !in n && '=' !in n && (n == [] || n[0] != ' ')
  }

  /** The header segments `n0=v0`, ` n1=v1`, … of a jar listed as (name, value) pairs. */
  function Segments(jar: seq<(string, string)>, lead: string): (segs: seq<string>)
    ensures |segs| == |jar|
    ensures forall i | 0 <= i < |jar| :: segs[i] == (if i == 0 then lead else " ") + jar[i].0 + "=" + jar[i].1
  {
    if |jar| == 0 then []
    else
      var rest := Segments(jar[1..], " ");
      assert forall i | 1 <= i < |jar| :: jar[1..][i - 1] == jar[i];
      [lead + jar[0].0 + "=" + jar[0].1] + rest
  }

  /** `document.cookie` for a jar: the pairs joined by `; `. */
  function Serialize(jar: seq<(string, string)>): string
  {
    Join(Segments(jar, ""), ';')
  }

  /** The value of the first pair with that name. */
  function JarValue(jar: seq<(string, string)>, name: string): Option<string>
  {
    if |jar| == 0 then None
    else if jar[0].0 == name then Some(jar[0].1)
    else JarValue(jar[1..], name)
  }

  /** The jar as a store; where a name repeats, its first pair wins. */
  function JarStore(jar: seq<(string, string)>): Store
  {
    if |jar| == 0 then map[] else JarStore(jar[1..])[jar[0].0 := jar[0].1]
  }

  /** Reading the first pair of a name agrees with looking the name up in the store. */
  lemma {:induction false} JarValueIsStoreLookup(jar: seq<(string, string)>, name: string)
    ensures JarValue(jar, name).Some? <==> name in JarStore(jar)
    ensures JarValue(jar, name).Some? ==> JarValue(jar, name).value == JarStore(jar)[name]
  {
    if |jar| > 0 {
      JarValueIsStoreLookup(jar[1..], name);
    }
  }

  /** One header segment names exactly its own cookie. */
  lemma SegmentOfPair(lead: string, n: string, v: string, name: string)
    requires lead == "" || lead == " "
    requires WellFormedName(n) && '=' !in name
    ensures SegmentValue(lead + n + "=" + v, name) == if n == name then Some(v) else None
  {
    var t := n + "=" + v;
    var segment := lead + n + "=" + v;
    assert segment == lead + t;
    assert t[0] != ' ' by {
      if |n| > 0 { assert t[0] == n[0]; } else { assert t[0] == '='; }
    }
    TrimSpacesPrefix(lead, t);
    assert TrimLeadingSpaces(segment) == t;
    KeyPrefix(n, name, v);
    if n == name {
      assert t == (name + "=") + v;
      assert t[|name + "="|..] == v;
    }
  }

  /** Reading the segments of a jar finds the first pair with that name. */
  lemma {:induction false} SegmentsLookup(jar: seq<(string, string)>, lead: string, name: string)
    requires lead == "" || lead == " "
    requires forall p | p in jar :: WellFormedName(p.0)
    requires '=' !in name
    ensures FirstSegmentValue(Segments(jar, lead), name) == JarValue(jar, name)
  {
    if |jar| > 0 {
      assert jar[0] in jar;
      SegmentOfPair(lead, jar[0].0, jar[0].1, name);
      forall p | p in jar[1..] ensures WellFormedName(p.0) {
        assert p in jar;
      }
      SegmentsLookup(jar[1..], " ", name);
      assert Segments(jar, lead)[1..] == Segments(jar[1..], " ");
    }
  }

  /**
   * getCookie on the header of a jar whose names are well formed and whose
   * values hold no `;` reads the jar: the value of the name when present,
   * null when absent.
   */
  lemma CookieLookupReadsJar(jar: seq<(string, string)>, name: string)
    requires forall p | p in jar :: WellFormedName(p.0) && ';' !in p.1
    requires '=' !in name
    ensures CookieLookup(Serialize(jar), name).Some? <==> name in JarStore(jar)
    ensures CookieLookup(Serialize(jar), name).Some? ==> CookieLookup(Serialize(jar), name).value == JarStore(jar)[name]
  {
    JarValueIsStoreLookup(jar, name);
    var segs := Segments(jar, "");
    if |jar| == 0 {
      assert Serialize(jar) == "";
      assert Split("", ';') == [""];
      assert SegmentValue("", name).None?;
      assert [""][1..] == [];
      assert FirstSegmentValue([""], name) == FirstSegmentValue([], name);
      assert CookieLookup(Serialize(jar), name).None?;
    } else {
      SegmentsNoSemicolon(jar, "");
      SplitJoin(segs, ';');
      forall p | p in jar ensures WellFormedName(p.0) { }
      SegmentsLookup(jar, "", name);
    }
  }

  /** No header segment of a well-formed jar contains `;`. */
  lemma {:induction false} SegmentsNoSemicolon(jar: seq<(string, string)>, lead: string)
    requires lead == "" || lead == " "
    requires forall p | p in jar :: WellFormedName(p.0) && ';' !in p.1
    ensures forall seg | seg in Segments(jar, lead) :: ';' !in seg
  {
    if |jar| > 0 {
      assert jar[0] in jar;
      forall p | p in jar[1..] ensures WellFormedName(p.0) && ';' !in p.1 {
        assert p in jar;
      }
      SegmentsNoSemicolon(jar[1..], " ");
    }
  }
}
