/**
 * The few Python string operations the modelled code relies on:
 * `str.split` with a one-character separator, `str.join`, the substring
 * test `sub in s`, character replacement and `str(n)` for a natural number.
 */
module Strings {

  /** `s.split(sep)` in Python: the pieces between occurrences of `sep`, always at least one. */
  function Split(s: string, sep: char): (parts: seq<string>)
    ensures |parts| >= 1
    ensures forall i :: 0 <= i < |parts| ==> sep !in parts[i]
    decreases |s|
  {
    if s == [] then [""]
    else
      var rest := Split(s[1..], sep);
      if s[0] == sep then [""] + rest
      else [[s[0]] + rest[0]] + rest[1..]
  }

  /** `sep.join(parts)` in Python. */
  function Join(sep: string, parts: seq<string>): string
    decreases |parts|
  {
    if |parts| == 0 then ""
    else if |parts| == 1 then parts[0]
    else parts[0] + sep + Join(sep, parts[1..])
  }

  /** Every occurrence of `from` in `s` turned into `to`, everything else kept. */
  function Replace(s: string, from: char, to: char): string
  {
    seq(|s|, i requires 0 <= i < |s| => if s[i] == from then to else s[i])
  }

  /** Extending the first part by a character extends the joined string by it. */
  lemma JoinConsChar(sep: string, c: char, parts: seq<string>)
    requires |parts| >= 1
    ensures Join(sep, [[c] + parts[0]] + parts[1..]) == [c] + Join(sep, parts)
  {
    var ps := [[c] + parts[0]] + parts[1..];
    assert ps[1..] == parts[1..];
  }

  /** Splitting and joining again with the same separator gives back the string. */
  lemma {:induction false} JoinSplit(s: string, sep: char)
    ensures Join([sep], Split(s, sep)) == s
    decreases |s|
  {
    if s != [] {
      var rest := Split(s[1..], sep);
      JoinSplit(s[1..], sep);
      if s[0] == sep {
        assert ([""] + rest)[1..] == rest;
      } else {
        JoinConsChar([sep], s[0], rest);
      }
    }
  }

  /** Joining pieces that do not contain the separator and splitting again gives back the pieces. */
  lemma {:induction false} SplitJoin(parts: seq<string>, sep: char)
    requires |parts| >= 1
    requires forall i :: 0 <= i < |parts| ==> sep !in parts[i]
    ensures Split(Join([sep], parts), sep) == parts
    decreases |parts|, |parts[0]|
  {
    if |parts| == 1 {
      SplitNoSep(parts[0], sep);
    } else if parts[0] == [] {
      var rest := parts[1..];
      SplitJoin(rest, sep);
      assert Join([sep], parts) == [sep] + Join([sep], rest);
      assert ([sep] + Join([sep], rest))[1..] == Join([sep], rest);
      assert parts == [""] + rest;
    } else {
      var p := parts[0];
      var shorter := [p[1..]] + parts[1..];
      assert shorter[1..] == parts[1..];
      assert forall i :: 0 <= i < |shorter| ==> sep !in shorter[i] by {
        forall i | 0 <= i < |shorter| ensures sep !in shorter[i] {
          if i == 0 { assert forall c :: c in p[1..] ==> c in p; } else { assert shorter[i] == parts[i]; }
        }
      }
      SplitJoin(shorter, sep);
      assert p == [p[0]] + p[1..];
      JoinConsChar([sep], p[0], shorter);
      assert [[p[0]] + shorter[0]] + shorter[1..] == parts;
      var j := Join([sep], parts);
      assert j == [p[0]] + Join([sep], shorter);
      assert j[1..] == Join([sep], shorter);
      assert j[0] == p[0] && p[0] != sep;
    }
  }

  /** A string without the separator splits into itself alone. */
  lemma {:induction false} SplitNoSep(s: string, sep: char)
    requires sep !in s
    ensures Split(s, sep) == [s]
    decreases |s|
  {
    if s != [] {
      assert forall c :: c in s[1..] ==> c in s;
      SplitNoSep(s[1..], sep);
      assert s == [s[0]] + s[1..];
    }
  }

  /** `"_".join(s.split("-"))` replaces every hyphen by an underscore. */
  lemma {:induction false} JoinSplitReplaces(s: string, from: char, to: char)
    ensures Join([to], Split(s, from)) == Replace(s, from, to)
    decreases |s|
  {
    if s != [] {
      var rest := Split(s[1..], from);
      JoinSplitReplaces(s[1..], from, to);
      assert Replace(s, from, to) == [if s[0] == from then to else s[0]] + Replace(s[1..], from, to);
      if s[0] == from {
        assert ([""] + rest)[1..] == rest;
      } else {
        JoinConsChar([to], s[0], rest);
      }
    }
  }

  /** `sub` occurs in `s` starting at position `i`. */
  predicate OccursAt(sub: string, s: string, i: nat)
  {
    i + |sub| <= |s| && s[i..i + |sub|] == sub
  }

  /** The substring test `sub in s`. */
  ghost predicate IsSubstring(sub: string, s: string)
  {
    exists i: nat :: OccursAt(sub, s, i)
  }

  /** `sub in s`, computed by scanning `s` from the left. */
  function Contains(s: string, sub: string): (b: bool)
    ensures b <==> IsSubstring(sub, s)
    decreases |s|
  {
    if |s| < |sub| then false
    else if s[..|sub|] == sub then (assert OccursAt(sub, s, 0); true)
    else
      var r := Contains(s[1..], sub);
      assert r ==> IsSubstring(sub, s) by {
        if r {
          var i: nat :| OccursAt(sub, s[1..], i);
          assert s[i + 1..i + 1 + |sub|] == s[1..][i..i + |sub|];
          assert OccursAt(sub, s, i + 1);
        }
      }
      assert IsSubstring(sub, s) ==> r by {
        if IsSubstring(sub, s) {
          var i: nat :| OccursAt(sub, s, i);
          assert i != 0;
          assert s[1..][i - 1..i - 1 + |sub|] == s[i..i + |sub|];
          assert OccursAt(sub, s[1..], i - 1);
        }
      }
      r
  }

  /** The decimal digit for `d`. */
  function Digit(d: nat): char
    requires d < 10
  {
    "0123456789"[d]
  }

  /** `str(n)` in Python for a natural number: its decimal digits, most significant first. */
  function NatToString(n: nat): (s: string)
    ensures |s| >= 1
    ensures (|s| == 1) == (n < 10)
    ensures s[|s| - 1] == Digit(n % 10)
    decreases n
  {
    if n < 10 then [Digit(n)] else NatToString(n / 10) + [Digit(n % 10)]
  }

  /** Different numbers have different decimal strings. */
  lemma {:induction false} NatToStringInjective(a: nat, b: nat)
    requires NatToString(a) == NatToString(b)
    ensures a == b
    decreases a
  {
    var s := NatToString(a);
    assert a % 10 == b % 10 by {
      assert Digit(a % 10) == Digit(b % 10);
    }
    if a >= 10 {
      assert NatToString(a / 10) == s[..|s| - 1] == NatToString(b / 10);
      NatToStringInjective(a / 10, b / 10);
    }
  }
}
