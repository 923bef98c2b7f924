/**
 * The JavaScript string operations the tracker relies on: `indexOf(p) == 0`,
 * `includes`, `split(';')` and the leading-space strip of getCookie.
 */
module Text {

  /** `s.indexOf(pat) == 0`: `pat` is a prefix of `s`. */
  predicate StartsWith(s: string, pat: string) {
    |pat| <= |s| && s[..|pat|] == pat
  }

  /** `pat` occurs in `s` at position `i`. */
  predicate OccursAt(s: string, pat: string, i: int) {
    0 <= i && i + |pat| <= |s| && s[i..i + |pat|] == pat
  }

  /** `s.includes(pat)`: `pat` occurs somewhere in `s`. */
  predicate Contains(s: string, pat: string) {
    exists i | 0 <= i <= |s| - |pat| :: OccursAt(s, pat, i)
  }

  /** A string lacking one of the characters of `pat` does not contain `pat`. */
  lemma MissingCharNotContained(s: string, pat: string, j: nat)
    requires j < |pat| && pat[j] !in s
    ensures !Contains(s, pat)
  {
  }

  /** Position of the first `c` in `s`, or `|s|` when `s` has none. */
  function IndexOf(s: string, c: char): (i: nat)
    ensures i <= |s|
    ensures i < |s| ==> s[i] == c
    ensures c !in s[..i]
    decreases |s|
  {
    if |s| == 0 then 0
    else if s[0] == c then 0
    else
      var j := IndexOf(s[1..], c);
      assert s[..j + 1] == [s[0]] + s[1..][..j];
      1 + j
  }

  /** `s.split(sep)` for a one-character separator: always at least one part. */
  function Split(s: string, sep: char): (parts: seq<string>)
    ensures |parts| >= 1
    ensures forall p | p in parts :: sep !in p
    decreases |s|
  {
    var i := IndexOf(s, sep);
    if i == |s| then [s] else [s[..i]] + Split(s[i + 1..], sep)
  }

  /** `parts.join(sep)`. */
  function Join(parts: seq<string>, sep: char): string
  {
    if |parts| == 0 then ""
    else if |parts| == 1 then parts[0]
    else parts[0] + [sep] + Join(parts[1..], sep)
  }

  /** Joining a part in front of at least one more part puts a separator between them. */
  lemma JoinCons(a: string, rest: seq<string>, sep: char)
    requires |rest| >= 1
    ensures Join([a] + rest, sep) == a + [sep] + Join(rest, sep)
  {
    assert ([a] + rest)[0] == a && ([a] + rest)[1..] == rest;
  }

  /** Joining the parts of a split gives back the original string. */
  lemma {:induction false} JoinSplit(s: string, sep: char)
    ensures Join(Split(s, sep), sep) == s
    decreases |s|
  {
    var i := IndexOf(s, sep);
    if i < |s| {
      var head, tail := s[..i], s[i + 1..];
      var rest := Split(tail, sep);
      assert Split(s, sep) == [head] + rest;
      assert Join([head] + rest, sep) == head + [sep] + tail by {
        JoinCons(head, rest, sep);
        JoinSplit(tail, sep);
      }
      assert s == head + [sep] + tail;
    }
  }

  /** The first separator of `a + [sep] + rest`, for a separator-free `a`, ends `a`. */
  lemma FirstPiece(a: string, rest: string, sep: char)
    requires sep !in a
    ensures var s := a + [sep] + rest;
            IndexOf(s, sep) == |a| && s[..|a|] == a && s[|a| + 1..] == rest
  {
    var s := a + [sep] + rest;
    assert s[..|a|] == a;
    assert s[|a|] == sep;
    assert s[|a| + 1..] == rest;
  }

  /** Splitting a join of separator-free parts gives back the parts. */
  lemma {:induction false} SplitJoin(parts: seq<string>, sep: char)
    requires |parts| >= 1
    requires forall p | p in parts :: sep !in p
    ensures Split(Join(parts, sep), sep) == parts
    decreases |parts|
  {
    if |parts| > 1 {
      var s := Join(parts, sep);
      var rest := Join(parts[1..], sep);
      assert s == parts[0] + [sep] + rest;
      assert parts[0] in parts;
      FirstPiece(parts[0], rest, sep);
      forall p | p in parts[1..] ensures sep !in p {
        assert p in parts;
      }
      SplitJoin(parts[1..], sep);
      assert Split(s, sep) == [parts[0]] + Split(rest, sep);
      assert parts == [parts[0]] + parts[1..];
    } else {
      assert Join(parts, sep) == parts[0];
      assert parts[0] in parts;
    }
  }

  /** `name=` starts `n=…` exactly when the two `=`-free names are equal. */
  lemma KeyPrefix(n: string, name: string, tail: string)
    requires '=' !in n && '=' !in name
    ensures StartsWith(n + "=" + tail, name + "=") <==> n == name
  {
    var s := n + "=" + tail;
    assert s[..|n|] == n && s[|n|] == '=';
    if StartsWith(s, name + "=") {
      assert s[..|name| + 1][..|name|] == name && s[..|name| + 1][|name|] == '=';
      assert s[..|n|] == s[..|name|];
    }
  }

  /** getCookie's `while (c.charAt(0) == ' ') c = c.substring(1)`. */
  function TrimLeadingSpaces(s: string): (t: string)
    ensures |t| <= |s|
    ensures t == [] || t[0] != ' '
    decreases |s|
  {
    if |s| > 0 && s[0] == ' ' then TrimLeadingSpaces(s[1..]) else s
  }

  /** The strip drops exactly the leading spaces: the rest is a suffix, and all it drops is spaces. */
  lemma {:induction false} TrimLeadingSpacesSuffix(s: string)
    ensures TrimLeadingSpaces(s) == s[|s| - |TrimLeadingSpaces(s)|..]
    ensures forall i | 0 <= i < |s| - |TrimLeadingSpaces(s)| :: s[i] == ' '
    decreases |s|
  {
    if |s| > 0 && s[0] == ' ' {
      TrimLeadingSpacesSuffix(s[1..]);
      var t := TrimLeadingSpaces(s);
      assert t == TrimLeadingSpaces(s[1..]);
      assert s[1..][|s| - 1 - |t|..] == s[|s| - |t|..];
      forall i | 0 <= i < |s| - |t| ensures s[i] == ' ' {
        if i > 0 {
          assert s[i] == s[1..][i - 1];
        }
      }
    }
  }

  /** Leading spaces in front of a string that does not start with one are all removed. */
  lemma {:induction false} TrimSpacesPrefix(spaces: string, t: string)
    requires forall i | 0 <= i < |spaces| :: spaces[i] == ' '
    requires t == [] || t[0] != ' '
    ensures TrimLeadingSpaces(spaces + t) == t
    decreases |spaces|
  {
    if |spaces| > 0 {
      assert (spaces + t)[1..] == spaces[1..] + t;
      TrimSpacesPrefix(spaces[1..], t);
    } else {
      assert spaces + t == t;
    }
  }
}
