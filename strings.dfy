/**
  The string operations the settings loader relies on, with Python's `str`
  semantics: `upper`, `lower`, `startswith`, `endswith`, `replace(p, '')`,
  `lstrip(chars)`, `split(sep)` and the `<=` ordering `sorted` uses.
  Case mapping covers ASCII letters only.
*/
module Strings {

  predicate IsAsciiUpper(c: char) { 'A' <= c <= 'Z' }
  predicate IsAsciiLower(c: char) { 'a' <= c <= 'z' }

  function UpperChar(c: char): char
  {
    if IsAsciiLower(c) then (c as int - 'a' as int + 'A' as int) as char else c
  }

  function LowerChar(c: char): char
  {
    if IsAsciiUpper(c) then (c as int - 'A' as int + 'a' as int) as char else c
  }

  /** `s.upper()`: every lower-case letter replaced by its capital, nothing else touched. */
  function Upper(s: string): (r: string)
    ensures |r| == |s|
    ensures forall i :: 0 <= i < |r| ==> !IsAsciiLower(r[i])
    ensures forall i :: 0 <= i < |s| && !IsAsciiLower(s[i]) ==> r[i] == s[i]
    ensures forall i :: 0 <= i < |s| ==> r[i] == UpperChar(s[i])
  {
    if s == [] then [] else [UpperChar(s[0])] + Upper(s[1..])
  }

  /** A string without lower-case letters is its own upper-case form. */
  lemma UpperKeepsUpper(s: string)
    requires forall i :: 0 <= i < |s| ==> !IsAsciiLower(s[i])
    ensures Upper(s) == s
  {
  }

  /** `s.lower()`: every capital replaced by its lower-case letter, nothing else touched. */
  function Lower(s: string): (r: string)
    ensures |r| == |s|
    ensures forall i :: 0 <= i < |r| ==> !IsAsciiUpper(r[i])
    ensures forall i :: 0 <= i < |s| && !IsAsciiUpper(s[i]) ==> r[i] == s[i]
    ensures forall i :: 0 <= i < |s| ==> r[i] == LowerChar(s[i])
  {
    if s == [] then [] else [LowerChar(s[0])] + Lower(s[1..])
  }

  /** Lower-casing works character by character, so it distributes over concatenation. */
  lemma LowerAppend(a: string, b: string)
    ensures Lower(a + b) == Lower(a) + Lower(b)
  {
    var l, r := Lower(a + b), Lower(a) + Lower(b);
    forall i | 0 <= i < |l| ensures l[i] == r[i] {
      if i < |a| {
        assert l[i] == LowerChar(a[i]) == Lower(a)[i];
      } else {
        assert l[i] == LowerChar(b[i - |a|]) == Lower(b)[i - |a|];
      }
    }
  }

  /** `s.startswith(p)` */
  predicate StartsWith(s: string, p: string) { p <= s }

  /** `s.endswith(q)` */
  predicate EndsWith(s: string, q: string)
  {
    |q| <= |s| && s[|s| - |q|..] == q
  }

  /**
    `s.replace(p, '')`: scanning left to right, every occurrence of `p` that
    does not overlap an earlier one is deleted. An empty `p` leaves `s` as it is.
  */
  function RemoveAll(s: string, p: string): (r: string)
    ensures |r| <= |s|
    ensures p == [] ==> r == s
    decreases |s|
  {
    if p == [] || s == [] then s
    else if StartsWith(s, p) then RemoveAll(s[|p|..], p)
    else [s[0]] + RemoveAll(s[1..], p)
  }

  /** Nothing is deleted from a string in which `p` occurs nowhere. */
  lemma {:induction false} RemoveAllAbsent(s: string, p: string)
    requires forall i :: 0 <= i < |s| ==> !StartsWith(s[i..], p)
    ensures RemoveAll(s, p) == s
    decreases |s|
  {
    if p != [] && s != [] {
      assert s[1..] == s[1..][0..];
      forall i | 0 <= i < |s[1..]| ensures !StartsWith(s[1..][i..], p) {
        assert s[1..][i..] == s[i + 1..];
      }
      RemoveAllAbsent(s[1..], p);
      assert s[0..] == s;
    }
  }

  /** A pattern with a character that `s` lacks occurs nowhere in `s`. */
  lemma AbsentWhenCharMissing(s: string, p: string, k: nat)
    requires k < |p|
    requires forall i :: 0 <= i < |s| ==> s[i] != p[k]
    ensures forall i :: 0 <= i < |s| ==> !StartsWith(s[i..], p)
  {
    forall i | 0 <= i < |s| ensures !StartsWith(s[i..], p) {
      if i + k < |s| {
        assert s[i..][k] == s[i + k];
      }
    }
  }

  /** A stretch that cannot start an occurrence of `p` is kept as it is. */
  lemma {:induction false} RemoveAllSkips(a: string, b: string, p: string)
    requires p != []
    requires forall i :: 0 <= i < |a| ==> a[i] != p[0]
    ensures RemoveAll(a + b, p) == a + RemoveAll(b, p)
    decreases |a|
  {
    if a == [] {
      assert a + b == b;
    } else {
      assert (a + b)[0] == a[0] != p[0];
      assert (a + b)[1..] == a[1..] + b;
      RemoveAllSkips(a[1..], b, p);
      assert [a[0]] + (a[1..] + RemoveAll(b, p)) == a + RemoveAll(b, p);
    }
  }

  /**
    `s.lstrip(chars)`: the longest prefix made of characters in `chars` is
    removed; the rest is kept.
  */
  function LStrip(s: string, chars: set<char>): (r: string)
    ensures |r| <= |s| && r == s[|s| - |r|..]
    ensures forall i :: 0 <= i < |s| - |r| ==> s[i] in chars
    ensures r == [] || r[0] !in chars
  {
    if s != [] && s[0] in chars then LStrip(s[1..], chars) else s
  }

  /** Stripping stops at the first character outside the set. */
  lemma LStripStops(s: string, chars: set<char>)
    requires s != [] && s[0] !in chars
    ensures LStrip(s, chars) == s
  {
  }

  /** A leading run of characters from the set is stripped, up to the first character outside it. */
  lemma {:induction false} LStripLeading(a: string, b: string, chars: set<char>)
    requires forall i :: 0 <= i < |a| ==> a[i] in chars
    requires b != [] && b[0] !in chars
    ensures LStrip(a + b, chars) == b
    decreases |a|
  {
    if a == [] {
      assert a + b == b;
    } else {
      assert (a + b)[1..] == a[1..] + b;
      LStripLeading(a[1..], b, chars);
    }
  }

  /** The set of characters of `s`, the way `lstrip` reads its argument. */
  function CharsOf(s: string): set<char>
  {
    set i | 0 <= i < |s| :: s[i]
  }

  /**
    `s.split(sep)` for a non-empty `sep`: cut at every occurrence of `sep`
    found scanning left to right, occurrences never overlapping. There is
    always at least one piece.
  */
  function Split(s: string, sep: string): (r: seq<string>)
    requires sep != []
    ensures |r| >= 1
    decreases |s|
  {
    if s == [] then [[]]
    else if StartsWith(s, sep) then [[]] + Split(s[|sep|..], sep)
    else
      var rest := Split(s[1..], sep);
      [[s[0]] + rest[0]] + rest[1..]
  }

  /** A string in which `sep` occurs nowhere is a single piece. */
  lemma {:induction false} SplitAbsent(s: string, sep: string)
    requires sep != []
    requires forall i :: 0 <= i < |s| ==> !StartsWith(s[i..], sep)
    ensures Split(s, sep) == [s]
    decreases |s|
  {
    if s != [] {
      assert s[0..] == s;
      forall i | 0 <= i < |s[1..]| ensures !StartsWith(s[1..][i..], sep) {
        assert s[1..][i..] == s[i + 1..];
      }
      SplitAbsent(s[1..], sep);
      assert !StartsWith(s, sep);
      assert [s[0]] + s[1..] == s;
    }
  }

  /**
    Cutting at the first occurrence: when `sep` does not start anywhere in
    `a` (reading on into `sep + b`), the first piece of `a + sep + b` is `a`.
  */
  lemma {:induction false} SplitFirst(a: string, sep: string, b: string)
    requires sep != []
    requires forall i :: 0 <= i < |a| ==> !StartsWith((a + sep + b)[i..], sep)
    ensures Split(a + sep + b, sep) == [a] + Split(b, sep)
    decreases |a|
  {
    var s := a + sep + b;
    if a == [] {
      assert s == sep + b;
      assert s[|sep|..] == b;
    } else {
      assert s[0..] == s;
      assert s[1..] == a[1..] + sep + b;
      forall i | 0 <= i < |a[1..]| ensures !StartsWith((a[1..] + sep + b)[i..], sep) {
        assert (a[1..] + sep + b)[i..] == s[i + 1..];
      }
      SplitFirst(a[1..], sep, b);
      assert [a[0]] + a[1..] == a;
    }
  }

  /** A string without capital letters splits into pieces without capital letters. */
  lemma {:induction false} SplitKeepsLowerCase(s: string, sep: string)
    requires sep != []
    requires forall i :: 0 <= i < |s| ==> !IsAsciiUpper(s[i])
    ensures forall i, j :: 0 <= i < |Split(s, sep)| && 0 <= j < |Split(s, sep)[i]| ==> !IsAsciiUpper(Split(s, sep)[i][j])
    decreases |s|
  {
    if s == [] {
    } else if StartsWith(s, sep) {
      var t := s[|sep|..];
      assert forall i :: 0 <= i < |t| ==> t[i] == s[|sep| + i];
      SplitKeepsLowerCase(t, sep);
      assert Split(s, sep) == [[]] + Split(t, sep);
    } else {
      var t := s[1..];
      assert forall i :: 0 <= i < |t| ==> t[i] == s[1 + i];
      SplitKeepsLowerCase(t, sep);
      var rest := Split(t, sep);
      var r := Split(s, sep);
      assert r == [[s[0]] + rest[0]] + rest[1..];
      forall i, j | 0 <= i < |r| && 0 <= j < |r[i]| ensures !IsAsciiUpper(r[i][j]) {
        if i == 0 {
          if j > 0 { assert r[0][j] == rest[0][j - 1]; }
        } else {
          assert r[i] == rest[i];
        }
      }
    }
  }

  /** `sep.join(pieces)` */
  function Join(pieces: seq<string>, sep: string): string
    requires |pieces| >= 1
  {
    if |pieces| == 1 then pieces[0] else pieces[0] + sep + Join(pieces[1..], sep)
  }

  lemma JoinFirstExtended(c: char, pieces: seq<string>, sep: string)
    requires |pieces| >= 1
    ensures Join([[c] + pieces[0]] + pieces[1..], sep) == [c] + Join(pieces, sep)
  {
    var q := [[c] + pieces[0]] + pieces[1..];
    assert q[1..] == pieces[1..];
  }

  /** Joining the pieces of a split with the same separator gives the string back. */
  lemma {:induction false} JoinSplit(s: string, sep: string)
    requires sep != []
    ensures Join(Split(s, sep), sep) == s
    decreases |s|
  {
    if s == [] {
    } else if StartsWith(s, sep) {
      var t := s[|sep|..];
      var pieces := Split(t, sep);
      JoinSplit(t, sep);
      assert Split(s, sep) == [[]] + pieces;
      assert ([[]] + pieces)[1..] == pieces;
      assert s == sep + t;
    } else {
      var rest := Split(s[1..], sep);
      JoinSplit(s[1..], sep);
      JoinFirstExtended(s[0], rest, sep);
      assert s == [s[0]] + s[1..];
    }
  }

  /**
    `s.replace(p, '')` is the same as splitting on `p` and gluing the pieces
    back together with nothing between them.
  */
  lemma {:induction false} RemoveAllIsSplitJoin(s: string, p: string)
    requires p != []
    ensures RemoveAll(s, p) == Join(Split(s, p), "")
    decreases |s|
  {
    if s == [] {
    } else if StartsWith(s, p) {
      RemoveAllIsSplitJoin(s[|p|..], p);
      var pieces := Split(s[|p|..], p);
      assert Split(s, p) == [[]] + pieces;
      assert Join([[]] + pieces, "") == [] + "" + Join(pieces, "");
    } else {
      RemoveAllIsSplitJoin(s[1..], p);
      var rest := Split(s[1..], p);
      assert Split(s, p) == [[s[0]] + rest[0]] + rest[1..];
      assert RemoveAll(s, p) == [s[0]] + RemoveAll(s[1..], p);
      JoinFirstExtended(s[0], rest, "");
    }
  }

  /** Python's `<=` on strings: lexicographic by code point, a prefix first. */
  predicate LessEq(a: string, b: string)
  {
    a == [] || (b != [] && (a[0] < b[0] || (a[0] == b[0] && LessEq(a[1..], b[1..]))))
  }

  /** Any two strings are comparable, so sorting by name is well defined. */
  lemma {:induction false} LessEqTotal(a: string, b: string)
    ensures LessEq(a, b) || LessEq(b, a)
  {
    if a != [] && b != [] && a[0] == b[0] {
      LessEqTotal(a[1..], b[1..]);
    }
  }

  /** The ordering is transitive. */
  lemma {:induction false} LessEqTransitive(a: string, b: string, c: string)
    requires LessEq(a, b) && LessEq(b, c)
    ensures LessEq(a, c)
  {
    if a != [] && b != [] && c != [] && a[0] == b[0] && b[0] == c[0] {
      LessEqTransitive(a[1..], b[1..], c[1..]);
    }
  }
}
