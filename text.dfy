/**
 * The few operations on strings that the scripts use: `str.replace` with a
 * one-character pattern, `str.split` and `str.join` with a separator, a
 * first-occurrence search, prefix and suffix tests and ASCII lower-casing.
 */
module Text {
  import opened Wrappers

  predicate StartsWith(s: string, prefix: string) {
    |prefix| <= |s| && s[..|prefix|] == prefix
  }

  predicate EndsWith(s: string, suffix: string) {
    |suffix| <= |s| && s[|s| - |suffix|..] == suffix
  }

  /** `sep` occurs in `s` starting at position `i`. */
  predicate OccursAt(s: string, sep: string, i: nat) {
    i + |sep| <= |s| && s[i..i + |sep|] == sep
  }

  /** The position of the first `x` in `s`, if any. */
  function IndexOf<T(==)>(s: seq<T>, x: T): (r: Option<nat>)
    ensures r.Some? ==> r.value < |s| && s[r.value] == x
    ensures r.Some? ==> forall j :: 0 <= j < r.value ==> s[j] != x
    ensures r.None? <==> x !in s
  {
    if s == [] then None
    else if s[0] == x then Some(0)
    else match IndexOf(s[1..], x)
      case None => None
      case Some(k) => Some(k + 1)
  }

  /** `s.replace(c, rep)`: every occurrence of the character `c` becomes `rep`. */
  function ReplaceChar(s: string, c: char, rep: string): (r: string)
    ensures c !in s ==> r == s
    ensures c !in rep ==> c !in r
    ensures rep == [] ==> |r| <= |s|
  {
    if s == [] then []
    else (if s[0] == c then rep else [s[0]]) + ReplaceChar(s[1..], c, rep)
  }

  /** A character that is neither in the input nor in the replacement is not in the output. */
  lemma {:induction false} ReplaceCharKeepsAbsent(s: string, c: char, rep: string, x: char)
    requires x !in s && x !in rep
    ensures x !in ReplaceChar(s, c, rep)
    decreases |s|
  {
    if s != [] {
      assert x != s[0];
      ReplaceCharKeepsAbsent(s[1..], c, rep, x);
    }
  }

  /** Replacing a character distributes over concatenation. */
  lemma {:induction false} ReplaceCharAppend(a: string, b: string, c: char, rep: string)
    ensures ReplaceChar(a + b, c, rep) == ReplaceChar(a, c, rep) + ReplaceChar(b, c, rep)
  {
    if a == [] {
      assert a + b == b;
    } else {
      assert (a + b)[0] == a[0];
      assert (a + b)[1..] == a[1..] + b;
      ReplaceCharAppend(a[1..], b, c, rep);
    }
  }

  /** `sep.join(parts)`. */
  function Join(parts: seq<string>, sep: string): string {
    if |parts| == 0 then ""
    else if |parts| == 1 then parts[0]
    else parts[0] + sep + Join(parts[1..], sep)
  }

  /**
   * `s.split(sep)` for a non-empty separator: the pieces between the
   * occurrences of `sep`, found left to right without overlap. An empty
   * string gives one empty piece.
   */
  function Split(s: string, sep: string): (r: seq<string>)
    requires sep != ""
    ensures |r| >= 1
    decreases |s|
  {
    if |s| < |sep| then [s]
    else if s[..|sep|] == sep then [""] + Split(s[|sep|..], sep)
    else
      var rest := Split(s[1..], sep);
      [[s[0]] + rest[0]] + rest[1..]
  }

  /** Prepending to the first part of a join prepends to the joined string. */
  lemma JoinPrependFirst(x: string, parts: seq<string>, sep: string)
    requires |parts| >= 1
    ensures Join([x + parts[0]] + parts[1..], sep) == x + Join(parts, sep)
  {
    var q := [x + parts[0]] + parts[1..];
    if |parts| > 1 {
      assert q[1..] == parts[1..];
    }
  }

  /** Joining the pieces of a split with the same separator gives back the input. */
  lemma {:induction false} JoinSplit(s: string, sep: string)
    requires sep != ""
    ensures Join(Split(s, sep), sep) == s
    decreases |s|
  {
    if |s| < |sep| {
    } else if s[..|sep|] == sep {
      var rest := Split(s[|sep|..], sep);
      JoinSplit(s[|sep|..], sep);
      assert ([""] + rest)[1..] == rest;
      assert Join([""] + rest, sep) == "" + sep + Join(rest, sep);
      assert s == s[..|sep|] + s[|sep|..];
    } else {
      var rest := Split(s[1..], sep);
      JoinSplit(s[1..], sep);
      JoinPrependFirst([s[0]], rest, sep);
      assert s == [s[0]] + s[1..];
    }
  }

  lemma SplitExample()
    ensures Split("a, b, c", ", ") == ["a", "b", "c"]
  {
    assert Split("c", ", ") == ["c"];
    assert ", c"[..2] == ", " && ", c"[2..] == "c";
    assert Split(", c", ", ") == ["", "c"];
    assert " c"[..2] != ", " by { assert " c"[..2][0] == ' '; }
    assert " c"[1..] == "c";
    assert [' '] + "c" == " c";
    assert Split(" c", ", ") == [" c"];
    assert "b, c"[..2] != ", " by { assert "b, c"[..2][0] == 'b'; }
    assert "b, c"[1..] == ", c";
    assert ['b'] + "" == "b";
    assert Split("b, c", ", ") == ["b", "c"];
    assert ", b, c"[..2] == ", " && ", b, c"[2..] == "b, c";
    assert Split(", b, c", ", ") == ["", "b", "c"];
    assert "a, b, c"[..2] != ", " by { assert "a, b, c"[..2][0] == 'a'; }
    assert "a, b, c"[1..] == ", b, c";
    assert ['a'] + "" == "a";
  }

  /** The first piece of a split is a prefix of the input. */
  lemma {:induction false} SplitHeadIsPrefix(s: string, sep: string)
    requires sep != ""
    ensures StartsWith(s, Split(s, sep)[0])
    decreases |s|
  {
    if |s| < |sep| {
    } else if s[..|sep|] == sep {
    } else {
      SplitHeadIsPrefix(s[1..], sep);
      var h := Split(s[1..], sep)[0];
      assert s[..|h| + 1] == [s[0]] + s[1..][..|h|];
    }
  }

  /** No piece of a split contains the separator. */
  lemma {:induction false} SplitPiecesAvoidSeparator(s: string, sep: string)
    requires sep != ""
    ensures forall p, i :: p in Split(s, sep) && 0 <= i ==> !OccursAt(p, sep, i)
    decreases |s|
  {
    var r := Split(s, sep);
    if |s| < |sep| {
      forall i | 0 <= i ensures !OccursAt(s, sep, i) { }
    } else if s[..|sep|] == sep {
      SplitPiecesAvoidSeparator(s[|sep|..], sep);
      forall p, i | p in r && 0 <= i ensures !OccursAt(p, sep, i) {
        if p != "" {
          assert p in Split(s[|sep|..], sep);
        }
      }
    } else {
      var rest := Split(s[1..], sep);
      SplitPiecesAvoidSeparator(s[1..], sep);
      SplitHeadIsPrefix(s[1..], sep);
      var h := [s[0]] + rest[0];
      forall p, i | p in r && 0 <= i ensures !OccursAt(p, sep, i) {
        if p == h {
          if i == 0 {
            assert h == s[..|h|];
            if |sep| <= |h| {
              assert h[..|sep|] == s[..|sep|];
            }
          } else if i + |sep| <= |h| {
            assert h[i..i + |sep|] == rest[0][i - 1..i - 1 + |sep|];
            assert !OccursAt(rest[0], sep, i - 1);
          }
        } else {
          assert p in rest[1..];
          assert p in rest;
        }
      }
    }
  }

  function LowerChar(c: char): char {
    if 'A' <= c <= 'Z' then (c as int - 'A' as int + 'a' as int) as char else c
  }

  /** `s.lower()` for ASCII letters; every other character is kept. */
  function Lower(s: string): (r: string)
    ensures |r| == |s|
    ensures forall i :: 0 <= i < |s| ==> r[i] == LowerChar(s[i])
  {
    seq(|s|, i requires 0 <= i < |s| => LowerChar(s[i]))
  }
}
