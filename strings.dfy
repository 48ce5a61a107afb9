/**
 * The string operations the core calls, with the semantics of the Rust `str`
 * methods (`starts_with`, `ends_with`, `contains`, `replace`, `split`) and of
 * `join` on a slice of strings. Strings are sequences of characters.
 */
module Strings {
  import opened Wrappers

  /** `s.starts_with(prefix)` */
  predicate StartsWith(s: string, prefix: string) {
    |prefix| <= |s| && s[..|prefix|] == prefix
  }

  /** `s.ends_with(suffix)` */
  predicate EndsWith(s: string, suffix: string) {
    |suffix| <= |s| && s[|s| - |suffix|..] == suffix
  }

  /** `pat` occurs in `s` starting at index `i`. */
  predicate OccursAt(s: string, pat: string, i: int) {
    0 <= i <= |s| - |pat| && s[i..i + |pat|] == pat
  }

  /** `s.contains(pat)`: `pat` occurs at some position of `s`. */
  predicate Contains(s: string, pat: string) {
    exists i | 0 <= i <= |s| - |pat| :: OccursAt(s, pat, i)
  }

  /**
   * `s.replace(pat, "")` for a non-empty pattern: scanning left to right,
   * every non-overlapping occurrence of `pat` is removed, wherever it is.
   */
  function RemoveAll(s: string, pat: string): (r: string)
    requires pat != []
    ensures |r| <= |s|
    decreases |s|
  {
    if |s| < |pat| then s
    else if s[..|pat|] == pat then RemoveAll(s[|pat|..], pat)
    else [s[0]] + RemoveAll(s[1..], pat)
  }

  /** A string in which the pattern does not occur is left as it is. */
  lemma {:induction false} RemoveAllAbsent(s: string, pat: string)
    requires pat != []
    requires !Contains(s, pat)
    ensures RemoveAll(s, pat) == s
    decreases |s|
  {
    if |s| >= |pat| {
      assert s[0..0 + |pat|] == s[..|pat|];
      assert !OccursAt(s, pat, 0);
      var t := s[1..];
      forall i | 0 <= i <= |t| - |pat| ensures !OccursAt(t, pat, i) {
        var inS, inT := s[i + 1..i + 1 + |pat|], t[i..i + |pat|];
        assert forall k :: 0 <= k < |pat| ==> inS[k] == inT[k];
        assert inS == inT;
        assert !OccursAt(s, pat, i + 1);
      }
      RemoveAllAbsent(t, pat);
      assert [s[0]] + t == s;
    }
  }

  /** A leading occurrence is removed and the scan goes on after it. */
  lemma RemoveAllLeading(pat: string, t: string)
    requires pat != []
    ensures RemoveAll(pat + t, pat) == RemoveAll(t, pat)
  {
    assert (pat + t)[..|pat|] == pat;
    assert (pat + t)[|pat|..] == t;
  }

  /** A first character at which the pattern does not start is kept. */
  lemma RemoveAllKeepsFirst(c: char, t: string, pat: string)
    requires pat != []
    requires c != pat[0] || (|pat| > 1 && t != [] && t[0] != pat[1])
    ensures RemoveAll([c] + t, pat) == [c] + RemoveAll(t, pat)
  {
    assert ([c] + t)[1..] == t;
    if |[c] + t| >= |pat| {
      assert ([c] + t)[..|pat|][0] == c;
      if |pat| > 1 && t != [] {
        assert ([c] + t)[..|pat|][1] == t[0];
      }
    }
  }

  /** The pattern visibly does not start at index `j` of the block: its first or second character differs. */
  predicate NoStartAt(block: string, j: nat, pat: string)
    requires j < |block| && pat != []
  {
    block[j] != pat[0] || (|pat| > 1 && j + 1 < |block| && block[j + 1] != pat[1])
  }

  /**
   * A block of characters in which the pattern starts nowhere is kept:
   * shown one character at a time, from the back.
   */
  lemma RemoveAllKeepsFrom(block: string, i: nat, tail: string, rest: string, pat: string)
    requires i <= |block| && pat != []
    requires forall j :: i <= j < |block| ==> NoStartAt(block, j, pat)
    requires RemoveAll(tail, pat) == rest
    ensures RemoveAll(block[i..] + tail, pat) == block[i..] + rest
    decreases |block| - i
  {
    if i == |block| {
      assert block[i..] + tail == tail;
    } else {
      var c, u := block[i], block[i + 1..] + tail;
      assert NoStartAt(block, i, pat);
      RemoveAllKeepsFrom(block, i + 1, tail, rest, pat);
      if i + 1 < |block| {
        assert u[0] == block[i + 1];
      }
      assert block[i..] + tail == [c] + u;
      assert block[i..] + rest == [c] + (block[i + 1..] + rest);
      RemoveAllCons(block[i..] + tail, c, u, block[i + 1..] + rest, pat);
    }
  }

  /** `RemoveAllKeepsFirst` for a string already split into its first character and the rest. */
  lemma RemoveAllCons(s: string, c: char, u: string, ru: string, pat: string)
    requires pat != [] && s == [c] + u && RemoveAll(u, pat) == ru
    requires c != pat[0] || (|pat| > 1 && u != [] && u[0] != pat[1])
    ensures RemoveAll(s, pat) == [c] + ru
  {
    RemoveAllKeepsFirst(c, u, pat);
  }

  /** `s.strip_prefix(prefix).unwrap_or(s)`: only a leading occurrence goes. */
  function StripPrefix(s: string, prefix: string): (r: string)
    ensures StartsWith(s, prefix) ==> prefix + r == s
    ensures !StartsWith(s, prefix) ==> r == s
  {
    if StartsWith(s, prefix) then s[|prefix|..] else s
  }

  /**
   * `s.split(sep)` collected into a vector: the pieces between separators,
   * including empty pieces before a leading, after a trailing and between
   * two adjacent separators. The empty string splits into one empty piece.
   */
  function Split(s: string, sep: char): (parts: seq<string>)
    ensures |parts| >= 1
    ensures forall i :: 0 <= i < |parts| ==> sep !in parts[i]
    decreases |s|
  {
    if s == [] then [""]
    else
      var rest := Split(s[1..], sep);
      if s[0] == sep then [""] + rest
      else [[s[0]] + rest[0]] + rest[1..]
  }

  /** `parts.join(sep)`: the pieces with `sep` between neighbours. */
  function Join(parts: seq<string>, sep: string): string
  {
    if |parts| == 0 then ""
    else if |parts| == 1 then parts[0]
    else parts[0] + sep + Join(parts[1..], sep)
  }

  /** A string made of two separator-free pieces splits into exactly those pieces. */
  lemma SplitTwo(first: string, second: string, sep: char)
    requires sep !in first && sep !in second
    ensures Split(first + [sep] + second, sep) == [first, second]
  {
    SplitWithoutSeparator(second, sep);
    SplitAfterPiece(first, sep, second);
  }

  /** Splitting distributes over a separator: the pieces of both sides, in order. */
  lemma {:induction false} SplitConcat(a: string, b: string, sep: char)
    ensures Split(a + [sep] + b, sep) == Split(a, sep) + Split(b, sep)
    decreases |a|
  {
    if a == [] {
      assert a + [sep] + b == [sep] + b;
      SplitCons(sep, b, sep);
    } else {
      var t := a[1..] + [sep] + b;
      assert a + [sep] + b == [a[0]] + t;
      assert a == [a[0]] + a[1..];
      SplitConcat(a[1..], b, sep);
      SplitConsStep(a[0], a[1..], b, sep);
    }
  }

  lemma SplitConsStep(c: char, a: string, b: string, sep: char)
    requires Split(a + [sep] + b, sep) == Split(a, sep) + Split(b, sep)
    ensures Split([c] + (a + [sep] + b), sep) == Split([c] + a, sep) + Split(b, sep)
  {
    SplitCons(c, a + [sep] + b, sep);
    SplitCons(c, a, sep);
    PiecesCons(c == sep, [c], Split(a + [sep] + b, sep), Split(a, sep), Split(b, sep));
  }

  /** Prepending to the first piece, or adding an empty first piece, commutes with appending pieces. */
  lemma PiecesCons(empty: bool, c: string, x: seq<string>, l: seq<string>, r: seq<string>)
    requires x == l + r && |l| >= 1
    ensures (if empty then [""] + x else [c + x[0]] + x[1..])
         == (if empty then [""] + l else [c + l[0]] + l[1..]) + r
  {
    if !empty {
      assert x[1..] == l[1..] + r;
    }
  }

  /** The split of a string, seen from its first character. */
  lemma SplitCons(c: char, t: string, sep: char)
    ensures Split([c] + t, sep) ==
      if c == sep then [""] + Split(t, sep) else [[c] + Split(t, sep)[0]] + Split(t, sep)[1..]
  {
    assert ([c] + t)[1..] == t;
  }

  /** Appending text without a separator adds no piece. */
  lemma {:induction false} SplitAppendCount(a: string, b: string, sep: char)
    requires sep !in b
    ensures |Split(a + b, sep)| == |Split(a, sep)|
    decreases |a|
  {
    if a == [] {
      assert a + b == b;
      SplitWithoutSeparator(b, sep);
    } else {
      SplitAppendCount(a[1..], b, sep);
      assert (a + b)[1..] == a[1..] + b;
      assert (a + b)[0] == a[0];
    }
  }

  /** Joining the pieces of a split with the separator restores the string. */
  lemma {:induction false} JoinSplit(s: string, sep: char)
    ensures Join(Split(s, sep), [sep]) == s
    decreases |s|
  {
    if s != [] {
      var rest := Split(s[1..], sep);
      JoinSplit(s[1..], sep);
      if s[0] == sep {
        assert ([""] + rest)[1..] == rest;
      } else {
        var parts := [[s[0]] + rest[0]] + rest[1..];
        assert Split(s, sep) == parts;
        if |rest| > 1 {
          assert parts[1..] == rest[1..];
        }
      }
    }
  }

  /** A string without the separator is its own only piece. */
  lemma {:induction false} SplitWithoutSeparator(s: string, sep: char)
    requires sep !in s
    ensures Split(s, sep) == [s]
    decreases |s|
  {
    if s != [] {
      assert sep !in s[1..];
      SplitWithoutSeparator(s[1..], sep);
      assert [s[0]] + s[1..] == s;
    }
  }

  /** A first piece free of the separator, followed by the separator, splits off. */
  lemma {:induction false} SplitAfterPiece(a: string, sep: char, t: string)
    requires sep !in a
    ensures Split(a + [sep] + t, sep) == [a] + Split(t, sep)
    decreases |a|
  {
    if a == [] {
      assert a + [sep] + t == [sep] + t;
      assert ([sep] + t)[1..] == t;
    } else {
      var s := a + [sep] + t;
      assert s[1..] == a[1..] + [sep] + t;
      assert sep !in a[1..];
      SplitAfterPiece(a[1..], sep, t);
      assert [a[0]] + a[1..] == a;
    }
  }

  /** Splitting a join of separator-free pieces gives the pieces back. */
  lemma {:induction false} SplitJoin(parts: seq<string>, sep: char)
    requires |parts| >= 1
    requires forall i :: 0 <= i < |parts| ==> sep !in parts[i]
    ensures Split(Join(parts, [sep]), sep) == parts
    decreases |parts|
  {
    if |parts| == 1 {
      SplitWithoutSeparator(parts[0], sep);
    } else {
      SplitJoin(parts[1..], sep);
      SplitAfterPiece(parts[0], sep, Join(parts[1..], [sep]));
      assert [parts[0]] + parts[1..] == parts;
    }
  }

  /** The index of the last occurrence of `c` in `s`, as `s.rfind(c)`. */
  function LastIndexOf(s: string, c: char): (r: Option<nat>)
    ensures r.None? <==> c !in s
    ensures r.Some? ==> r.value < |s| && s[r.value] == c && c !in s[r.value + 1..]
    decreases |s|
  {
    if s == [] then None
    else if s[|s| - 1] == c then Some(|s| - 1)
    else
      var r := LastIndexOf(s[..|s| - 1], c);
      assert s == s[..|s| - 1] + [s[|s| - 1]];
      if r.Some? then
        assert s[r.value + 1..] == s[..|s| - 1][r.value + 1..] + [s[|s| - 1]];
        r
      else r
  }

  /**
   * Rust's `Ord` on `String`: lexicographic comparison, a proper prefix
   * first. On characters this is code-point order, which is also the
   * byte order of the UTF-8 encoding that Rust compares.
   */
  predicate LexLe(a: string, b: string)
    decreases |a|
  {
    if a == [] then true
    else if b == [] then false
    else a[0] < b[0] || (a[0] == b[0] && LexLe(a[1..], b[1..]))
  }

  lemma {:induction false} LexLeTotal(a: string, b: string)
    ensures LexLe(a, b) || LexLe(b, a)
    decreases |a|
  {
    if a != [] && b != [] && a[0] == b[0] {
      LexLeTotal(a[1..], b[1..]);
    }
  }

  lemma {:induction false} LexLeTransitive(a: string, b: string, c: string)
    requires LexLe(a, b) && LexLe(b, c)
    ensures LexLe(a, c)
    decreases |a|
  {
    if a != [] && a[0] == b[0] && b[0] == c[0] {
      LexLeTransitive(a[1..], b[1..], c[1..]);
    }
  }

  lemma {:induction false} LexLeAntisymmetric(a: string, b: string)
    requires LexLe(a, b) && LexLe(b, a)
    ensures a == b
    decreases |a|
  {
    if a != [] {
      LexLeAntisymmetric(a[1..], b[1..]);
      assert a == [a[0]] + a[1..] && b == [b[0]] + b[1..];
    }
  }
}
