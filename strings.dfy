/** String operations the planner relies on: Java's `String.startsWith`, `String.replace`,
    `String.join`, the regular-expression class `\s`, and the path helpers `tokenizePath` and
    `pathToUpperCamelCase`. */
module Strings {

  /** `s.startsWith(prefix)`. */
  predicate StartsWith(s: string, prefix: string) {
    |prefix| <= |s| && s[..|prefix|] == prefix
  }

  /** `t` occurs in `s` starting at index `i`. */
  predicate OccursAt(s: string, t: string, i: nat) {
    i + |t| <= |s| && s[i..i + |t|] == t
  }

  /** `s.contains(t)`. */
  predicate Contains(s: string, t: string) {
    exists i: nat | i <= |s| :: OccursAt(s, t, i)
  }

  /** Java's `\s` character class: space, tab, line feed, vertical tab, form feed, carriage return. */
  predicate IsWhitespace(c: char) {
    c == ' ' || c == '\t' || c == '\n' || c == '\U{000B}' || c == '\U{000C}' || c == '\r'
  }

  /** `s.replace(target, replacement)` for a non-empty target: every occurrence, scanning left to
      right and never overlapping, is replaced literally. */
  function ReplaceAll(s: string, target: string, replacement: string): string
    requires |target| > 0
    decreases |s|
  {
    if |s| < |target| then s
    else if s[..|target|] == target then replacement + ReplaceAll(s[|target|..], target, replacement)
    else [s[0]] + ReplaceAll(s[1..], target, replacement)
  }

  /** A string without the target is left as it is. */
  lemma {:induction false} ReplaceAllAbsent(s: string, target: string, replacement: string)
    requires |target| > 0
    requires !Contains(s, target)
    ensures ReplaceAll(s, target, replacement) == s
    decreases |s|
  {
    if |s| >= |target| {
      assert !OccursAt(s, target, 0);
      forall i: nat | OccursAt(s[1..], target, i) ensures OccursAt(s, target, i + 1) {
        assert s[i + 1..i + 1 + |target|] == s[1..][i..i + |target|];
      }
      ReplaceAllAbsent(s[1..], target, replacement);
    }
  }

  /** Where the target occurs, the replacement occurs in the result. */
  lemma {:induction false} ReplaceAllIntroduces(s: string, target: string, replacement: string)
    requires |target| > 0
    requires Contains(s, target)
    ensures Contains(ReplaceAll(s, target, replacement), replacement)
    decreases |s|
  {
    var i: nat :| OccursAt(s, target, i);
    var r := ReplaceAll(s, target, replacement);
    if s[..|target|] == target {
      assert OccursAt(r, replacement, 0);
    } else {
      assert OccursAt(s, target, i);
      assert i > 0 && i + |target| <= |s|;
      assert s[1..][i - 1..i - 1 + |target|] == s[i..i + |target|];
      assert OccursAt(s[1..], target, i - 1);
      ReplaceAllIntroduces(s[1..], target, replacement);
      var rest := ReplaceAll(s[1..], target, replacement);
      var j: nat :| OccursAt(rest, replacement, j);
      assert OccursAt(rest, replacement, j);
      assert r == [s[0]] + rest;
      assert r[j + 1..j + 1 + |replacement|] == rest[j..j + |replacement|];
      assert OccursAt(r, replacement, j + 1);
    }
  }

  /** Replacing a string by itself changes nothing. */
  lemma {:induction false} ReplaceAllIdentity(s: string, target: string)
    requires |target| > 0
    ensures ReplaceAll(s, target, target) == s
    decreases |s|
  {
    if |s| >= |target| {
      if s[..|target|] == target {
        ReplaceAllIdentity(s[|target|..], target);
        assert s == s[..|target|] + s[|target|..];
      } else {
        ReplaceAllIdentity(s[1..], target);
        assert s == [s[0]] + s[1..];
      }
    }
  }

  /** `String.join(separator, parts)` (also `Collectors.joining(separator)`). */
  function JoinWith(separator: string, parts: seq<string>): string
    decreases |parts|
  {
    if |parts| == 0 then ""
    else if |parts| == 1 then parts[0]
    else parts[0] + separator + JoinWith(separator, parts[1..])
  }

  /** `tokenizePath`: the dot-separated components of a path, empty components included. The
      helper itself is not part of this model; splitting on every `.` is the assumption made here. */
  function TokenizePath(path: string): (tokens: seq<string>)
    ensures |tokens| >= 1
    decreases |path|
  {
    if path == [] then [""]
    else
      var rest := TokenizePath(path[1..]);
      if path[0] == '.' then [""] + rest
      else [[path[0]] + rest[0]] + rest[1..]
  }

  /** A path has at least one component, and no component holds a dot. */
  lemma {:induction false} TokenizePathShape(path: string)
    ensures |TokenizePath(path)| >= 1
    ensures forall k :: 0 <= k < |TokenizePath(path)| ==> '.' !in TokenizePath(path)[k]
    decreases |path|
  {
    if path != [] {
      TokenizePathShape(path[1..]);
      var rest := TokenizePath(path[1..]);
      if path[0] != '.' {
        var r := TokenizePath(path);
        assert r[0] == [path[0]] + rest[0];
        forall k | 0 <= k < |r| ensures '.' !in r[k] {
          if k > 0 { assert r[k] == rest[k]; }
        }
      }
    }
  }

  /** Joining the components with dots gives back the path. */
  lemma {:induction false} TokenizePathJoin(path: string)
    ensures JoinWith(".", TokenizePath(path)) == path
    decreases |path|
  {
    if path != [] {
      TokenizePathJoin(path[1..]);
      TokenizePathShape(path[1..]);
      var rest := TokenizePath(path[1..]);
      if path[0] == '.' {
        JoinCons(".", "", rest);
        assert [path[0]] + path[1..] == path;
      } else {
        JoinHead(".", [path[0]], rest);
        assert [path[0]] + path[1..] == path;
      }
    }
  }

  /** Splitting an already joined sequence of dot-free components gives the components back. */
  lemma {:induction false} JoinTokenizePath(parts: seq<string>)
    requires |parts| >= 1
    requires forall k :: 0 <= k < |parts| ==> '.' !in parts[k]
    ensures TokenizePath(JoinWith(".", parts)) == parts
    decreases |parts|, |parts[0]|
  {
    if |parts[0]| == 0 {
      if |parts| == 1 {
      } else {
        JoinTokenizePath(parts[1..]);
        JoinCons(".", "", parts[1..]);
        assert [""] + parts[1..] == parts;
        var j := JoinWith(".", parts);
        assert j == "." + JoinWith(".", parts[1..]);
        assert j[1..] == JoinWith(".", parts[1..]);
      }
    } else {
      var c := parts[0][0];
      var shorter := [parts[0][1..]] + parts[1..];
      assert '.' !in shorter[0] by { assert forall x :: x in parts[0][1..] ==> x in parts[0]; }
      JoinTokenizePath(shorter);
      JoinHead(".", [c], shorter);
      assert [c] + parts[0][1..] == parts[0];
      assert [parts[0]] + parts[1..] == parts;
      var j := JoinWith(".", parts);
      assert j == [c] + JoinWith(".", shorter);
      assert j[1..] == JoinWith(".", shorter);
      assert j[0] == c && c != '.';
    }
  }

  lemma JoinCons(separator: string, head: string, rest: seq<string>)
    requires |rest| >= 1
    ensures JoinWith(separator, [head] + rest) == head + separator + JoinWith(separator, rest)
  {
    assert ([head] + rest)[1..] == rest;
  }

  /** Prefixing the first component prefixes the joined string. */
  lemma {:induction false} JoinHead(separator: string, prefix: string, parts: seq<string>)
    requires |parts| >= 1
    ensures JoinWith(separator, [prefix + parts[0]] + parts[1..]) == prefix + JoinWith(separator, parts)
  {
    var q := [prefix + parts[0]] + parts[1..];
    if |parts| > 1 {
      assert q[1..] == parts[1..];
    }
  }

  /** Upper-cases an ASCII letter (`Character.toUpperCase` restricted to ASCII). */
  function UpperAscii(c: char): char {
    if 'a' <= c <= 'z' then (c as int - 'a' as int + 'A' as int) as char else c
  }

  /** The token with its first character upper-cased. */
  function Capitalise(token: string): string {
    if token == [] then [] else [UpperAscii(token[0])] + token[1..]
  }

  /** `pathToUpperCamelCase`: each component capitalised, then concatenated. The helper itself is not
      part of this model; this definition is the assumption made here. */
  function PathToUpperCamelCase(tokens: seq<string>): string
    decreases |tokens|
  {
    if tokens == [] then "" else Capitalise(tokens[0]) + PathToUpperCamelCase(tokens[1..])
  }

  /** Camel-casing a tokenised path drops exactly the dots: one character fewer per separator. */
  lemma {:induction false} CamelCaseLength(tokens: seq<string>)
    requires |tokens| >= 1
    ensures |PathToUpperCamelCase(tokens)| + |tokens| - 1 == |JoinWith(".", tokens)|
    decreases |tokens|
  {
    if |tokens| > 1 {
      CamelCaseLength(tokens[1..]);
    }
  }
}
