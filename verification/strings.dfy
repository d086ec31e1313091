/**
 * The few PHP string functions the controllers rely on, over `string` (a sequence of
 * characters): trim/rtrim with a character list, explode on one separator, substring
 * search, and PHP's notion of an "empty" string.
 */
module Strings {

  import opened Common

  /** The characters PHP's trim() strips when no list is given: space, tab, LF, CR, NUL, vertical tab. */
  const PhpWhitespace: set<char> := {' ', '\t', '\n', '\r', '\0', 11 as char}

  /** ltrim($s, cs): drops the longest prefix made only of characters in cs. */
  function TrimStart(s: string, cs: set<char>): (r: string)
    ensures |r| <= |s| && r == s[|s| - |r|..]
    ensures forall i :: 0 <= i < |s| - |r| ==> s[i] in cs
    ensures r == [] || r[0] !in cs
    decreases |s|
  {
    if s != [] && s[0] in cs then
      var r := TrimStart(s[1..], cs);
      assert forall i :: 1 <= i < |s| - |r| ==> s[i] == s[1..][i - 1];
      r
    else s
  }

  /** rtrim($s, cs): drops the longest suffix made only of characters in cs. */
  function TrimEnd(s: string, cs: set<char>): (r: string)
    ensures |r| <= |s| && r == s[..|r|]
    ensures forall i :: |r| <= i < |s| ==> s[i] in cs
    ensures r == [] || r[|r| - 1] !in cs
    decreases |s|
  {
    if s != [] && s[|s| - 1] in cs then TrimEnd(s[..|s| - 1], cs) else s
  }

  /**
   * r is s with a run of characters from cs cut from each end: r starts at index a of s,
   * and everything before a and after r is in cs.
   */
  predicate CutFromEnds(s: string, a: int, r: string, cs: set<char>) {
    && 0 <= a <= a + |r| <= |s|
    && r == s[a..a + |r|]
    && (forall c :: c in s[..a] ==> c in cs)
    && (forall c :: c in s[a + |r|..] ==> c in cs)
  }

  /** trim($s): both ends, PHP's default character list. */
  function Trim(s: string): (r: string)
    ensures r == [] || (r[0] !in PhpWhitespace && r[|r| - 1] !in PhpWhitespace)
  {
    TrimEnd(TrimStart(s, PhpWhitespace), PhpWhitespace)
  }

  /** What trim leaves: the input with a run of PHP whitespace cut from each end. */
  lemma TrimCutsWhitespace(s: string)
    ensures exists a :: CutFromEnds(s, a, Trim(s), PhpWhitespace)
  {
    var t := TrimStart(s, PhpWhitespace);
    var r := TrimEnd(t, PhpWhitespace);
    var a := |s| - |t|;
    assert t == s[a..];
    assert r == t[..|r|];
    forall c | c in s[..a] ensures c in PhpWhitespace {
      var i :| 0 <= i < a && s[i] == c;
    }
    forall c | c in s[a + |r|..] ensures c in PhpWhitespace {
      var i :| a + |r| <= i < |s| && s[i] == c;
      assert s[i] == t[i - a];
    }
    assert CutFromEnds(s, a, Trim(s), PhpWhitespace);
  }

  /** PHP truthiness of a string: everything but "" and "0". */
  predicate PhpTruthy(s: string) {
    s != "" && s != "0"
  }

  /** PHP's empty() on a value that is null or a string. */
  predicate PhpEmpty(s: Option<string>) {
    s.None? || !PhpTruthy(s.value)
  }

  /** str_starts_with / String.prototype.startsWith. */
  predicate StartsWith(s: string, prefix: string) {
    |prefix| <= |s| && s[..|prefix|] == prefix
  }

  /** Unanchored substring search, as an unanchored regular expression on a literal does it. */
  predicate Contains(s: string, t: string)
    decreases |s|
  {
    StartsWith(s, t) || (s != [] && Contains(s[1..], t))
  }

  /** explode($sep, $s): the pieces between separators, always at least one. */
  function Explode(s: string, sep: char): (parts: seq<string>)
    ensures |parts| >= 1
    ensures forall p :: p in parts ==> sep !in p
    decreases |s|
  {
    if s == [] then [""]
    else
      var rest := Explode(s[1..], sep);
      if s[0] == sep then [""] + rest
      else [[s[0]] + rest[0]] + rest[1..]
  }

  /** implode($sep, $parts): the inverse of Explode. */
  function Implode(parts: seq<string>, sep: char): string
    decreases |parts|
  {
    if parts == [] then ""
    else if |parts| == 1 then parts[0]
    else parts[0] + [sep] + Implode(parts[1..], sep)
  }

  /** Joining the pieces of explode with the separator gives back the input. */
  lemma {:induction false} ImplodeExplode(s: string, sep: char)
    ensures Implode(Explode(s, sep), sep) == s
    decreases |s|
  {
    if s != [] {
      var rest := Explode(s[1..], sep);
      ImplodeExplode(s[1..], sep);
      if s[0] == sep {
        assert Explode(s, sep) == [""] + rest;
        assert ([""] + rest)[1..] == rest;
      } else {
        var parts := Explode(s, sep);
        assert parts == [[s[0]] + rest[0]] + rest[1..];
        if |rest| == 1 {
          assert Implode(rest, sep) == rest[0];
        } else {
          assert Implode(rest, sep) == rest[0] + [sep] + Implode(rest[1..], sep);
          assert parts[1..] == rest[1..];
        }
      }
    }
  }

  /** Splitting a join of separator-free pieces gives back the pieces. */
  lemma {:induction false} ExplodeImplode(parts: seq<string>, sep: char)
    requires |parts| >= 1
    requires forall p :: p in parts ==> sep !in p
    ensures Explode(Implode(parts, sep), sep) == parts
    decreases |parts|, |parts[0]|
  {
    if |parts| == 1 {
      ExplodeSeparatorFree(parts[0], sep);
    } else if parts[0] == [] {
      var tail := Implode(parts[1..], sep);
      assert Implode(parts, sep) == [sep] + tail;
      ExplodeImplode(parts[1..], sep);
      assert ([sep] + tail)[1..] == tail;
      assert [""] + parts[1..] == parts;
    } else {
      var c := parts[0][0];
      var shorter := [parts[0][1..]] + parts[1..];
      forall p | p in shorter ensures sep !in p {
        if p == parts[0][1..] {
          assert parts[0] in parts;
        } else {
          assert p in parts[1..];
        }
      }
      ExplodeImplode(shorter, sep);
      var s := Implode(parts, sep);
      assert s == [c] + Implode(shorter, sep) by {
        if |parts| > 1 {
          assert shorter[1..] == parts[1..];
          assert parts[0] == [c] + parts[0][1..];
        }
      }
      assert s[1..] == Implode(shorter, sep);
      assert c != sep by { assert parts[0][0] in parts[0]; }
      assert [[c] + shorter[0]] + shorter[1..] == parts by {
        assert [c] + parts[0][1..] == parts[0];
      }
    }
  }

  /** A string without the separator explodes into itself alone. */
  lemma {:induction false} ExplodeSeparatorFree(s: string, sep: char)
    requires sep !in s
    ensures Explode(s, sep) == [s]
    decreases |s|
  {
    if s != [] {
      assert sep !in s[1..] by { assert forall i :: 0 <= i < |s| - 1 ==> s[1..][i] == s[i + 1]; }
      ExplodeSeparatorFree(s[1..], sep);
      assert [s[0]] + s[1..] == s;
    }
  }

  /** ASCII lower-casing, as PHP's case-insensitive comparisons on ASCII keywords do it. */
  function AsciiLower(s: string): (r: string)
    ensures |r| == |s|
  {
    seq(|s|, i requires 0 <= i < |s| => if 'A' <= s[i] <= 'Z' then (s[i] as int + 32) as char else s[i])
  }
}
